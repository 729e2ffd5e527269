/**
 * Group scoring and the per-user leaderboard statistics of the checkbox game
 * (`calculateGroupScore`, `calculateStats` in src/routes/checkbox-game.tsx).
 */
module Scoring {
  import opened JsMap
  import opened Checkboxes
  import opened Components

  datatype Group = Group(size: nat, score: nat)
  datatype UserStats = UserStats(userId: string, name: string, score: nat, groups: seq<Group>)
  datatype CheckboxStats = CheckboxStats(totalChecked: nat, userStats: seq<UserStats>)

  /** The integer square root: the largest r with r * r <= n. */
  function Isqrt(n: nat): (r: nat)
    ensures r * r <= n < (r + 1) * (r + 1)
  {
    if n < 4 then (if n == 0 then 0 else 1)
    else
      var h := 2 * Isqrt(n / 4);
      IsqrtStep(n, Isqrt(n / 4));
      if (h + 1) * (h + 1) <= n then h + 1 else h
  }

  lemma IsqrtStep(n: nat, r: nat)
    requires n >= 4 && r * r <= n / 4 < (r + 1) * (r + 1)
    ensures (2 * r) * (2 * r) <= n < (2 * r + 2) * (2 * r + 2)
  {
    var q := n / 4;
    assert 4 * q <= n < 4 * q + 4;
    assert (2 * r) * (2 * r) == 4 * (r * r);
    assert (2 * r + 2) * (2 * r + 2) == 4 * ((r + 1) * (r + 1));
  }

  lemma SquareMonotone(a: nat, b: nat)
    requires a <= b
    ensures a * a <= b * b
  {
    assert a * a <= a * b;
    assert a * b <= b * b;
  }

  /** Any m with m * m <= n is at most Isqrt(n): Isqrt is the largest such root. */
  lemma IsqrtIsLargest(n: nat, m: nat)
    requires m * m <= n
    ensures m <= Isqrt(n)
  {
    var r := Isqrt(n);
    if m > r {
      SquareMonotone(r + 1, m);
    }
  }

  /**
   * `calculateGroupScore(size) = Math.floor(Math.pow(size, 1.5))`, exactly:
   * the largest n with n * n <= size * size * size.
   */
  function GroupScore(size: nat): (n: nat)
    ensures n * n <= size * size * size < (n + 1) * (n + 1)
  {
    Isqrt(size * size * size)
  }

  /** The root is determined by its bracket. */
  lemma IsqrtExact(n: nat, r: nat)
    requires r * r <= n < (r + 1) * (r + 1)
    ensures Isqrt(n) == r
  {
    IsqrtIsLargest(n, r);
    var q := Isqrt(n);
    if q > r {
      SquareMonotone(r + 1, q);
    }
  }

  /** GroupScore(size) is the largest n with n * n <= size^3. */
  lemma ScoreIsLargest(size: nat, m: nat)
    requires m * m <= size * size * size
    ensures m <= GroupScore(size)
  {
    IsqrtIsLargest(size * size * size, m);
  }

  lemma {:induction false} GroupScoreSamples()
    ensures GroupScore(0) == 0 && GroupScore(1) == 1 && GroupScore(2) == 2
    ensures GroupScore(3) == 5 && GroupScore(4) == 8
  {
    IsqrtExact(0, 0);
    IsqrtExact(1, 1);
    IsqrtExact(8, 2);
    IsqrtExact(27, 5);
    IsqrtExact(64, 8);
  }

  lemma CubeMonotone(a: nat, b: nat)
    requires a <= b
    ensures a * a * a <= b * b * b
  {
    SquareMonotone(a, b);
    assert a * a * a <= b * b * a;
    assert b * b * a <= b * b * b;
  }

  /** A bigger group never scores less. */
  lemma {:induction false} GroupScoreMonotone(a: nat, b: nat)
    requires a <= b
    ensures GroupScore(a) <= GroupScore(b)
  {
    CubeMonotone(a, b);
    IsqrtIsLargest(b * b * b, GroupScore(a));
  }

  /** A group scores at least its size. */
  lemma {:induction false} GroupScoreAtLeastSize(size: nat)
    ensures GroupScore(size) >= size
  {
    assert size * size <= size * size * size by {
      if size > 0 {
        assert size * size * size == (size * size) * size;
      }
    }
    IsqrtIsLargest(size * size * size, size);
  }

  lemma MulMonotone(a: nat, b: nat, c: nat, d: nat)
    requires a <= b && c <= d
    ensures a * c <= b * d
  {
    assert a * c <= b * c;
    assert b * c <= b * d;
  }

  lemma SquareOfProduct(x: nat, y: nat)
    ensures (x * y) * (x * y) == (x * x) * (y * y)
  {
  }

  lemma CubeOfProduct(a: nat, b: nat)
    ensures (a * a * a) * (b * b * b) == ((a * b) * (a * b)) * (a * b)
  {
  }

  lemma ProductBelowSumSquared(a: nat, b: nat)
    ensures a * b <= (a + b) * (a + b)
  {
    assert (a + b) * (a + b) == a * a + 2 * (a * b) + b * b;
  }

  /** Squares of naturals order their roots. */
  lemma SquareBelow(u: nat, v: nat)
    requires u * u <= v * v
    ensures u <= v
  {
    if u > v {
      SquareMonotone(v + 1, u);
    }
  }

  /** From x * x <= a^3 and y * y <= b^3 follows x * y <= a * b * (a + b). */
  lemma ProductBound(a: nat, b: nat, x: nat, y: nat)
    requires x * x <= a * a * a && y * y <= b * b * b
    ensures x * y <= (a * b) * (a + b)
  {
    var p, s := a * b, a + b;
    var xy, ps := x * y, p * s;
    MulMonotone(x * x, a * a * a, y * y, b * b * b);
    SquareOfProduct(x, y);
    CubeOfProduct(a, b);
    ProductBelowSumSquared(a, b);
    MulMonotone(p * p, p * p, p, s * s);
    SquareOfProduct(p, s);
    assert xy * xy <= ps * ps;
    SquareBelow(xy, ps);
  }

  lemma SquareOfSum(x: nat, y: nat)
    ensures (x + y) * (x + y) == x * x + 2 * (x * y) + y * y
  {
  }

  lemma CubeOfSum(a: nat, b: nat)
    ensures (a + b) * (a + b) * (a + b) == a * a * a + 3 * ((a * b) * (a + b)) + b * b * b
  {
  }

  lemma SumOfRootsBound(a: nat, b: nat, x: nat, y: nat)
    requires x * x <= a * a * a && y * y <= b * b * b
    ensures (x + y) * (x + y) <= (a + b) * (a + b) * (a + b)
  {
    ProductBound(a, b, x, y);
    SquareOfSum(x, y);
    CubeOfSum(a, b);
  }

  /** Joining two groups never scores less than keeping them apart. */
  lemma {:induction false} GroupScoreSuperadditive(a: nat, b: nat)
    ensures GroupScore(a) + GroupScore(b) <= GroupScore(a + b)
  {
    var x, y := GroupScore(a), GroupScore(b);
    SumOfRootsBound(a, b, x, y);
    ScoreIsLargest(a + b, x + y);
  }

  /** `groups.map(group => ({ size: group.length, score: calculateGroupScore(group.length) }))`. */
  function ScoreGroups(components: seq<seq<int>>): (groups: seq<Group>)
    ensures |groups| == |components|
    ensures forall i :: 0 <= i < |groups| ==>
      groups[i].size == |components[i]| && groups[i].score == GroupScore(groups[i].size)
  {
    if components == [] then []
    else
      var last := components[|components| - 1];
      ScoreGroups(components[..|components| - 1]) + [Group(|last|, GroupScore(|last|))]
  }

  /** `userGroups.reduce((sum, g) => sum + g.score, 0)`. */
  function SumScores(groups: seq<Group>): nat
  {
    if groups == [] then 0 else SumScores(groups[..|groups| - 1]) + groups[|groups| - 1].score
  }

  function SumSizes(groups: seq<Group>): nat
  {
    if groups == [] then 0 else SumSizes(groups[..|groups| - 1]) + groups[|groups| - 1].size
  }

  /** `users.get(userId) || 'Unknown'`: a missing or empty name reads 'Unknown'. */
  function DisplayName(users: map<string, string>, userId: string): (name: string)
    ensures userId in users && users[userId] != "" ==> name == users[userId]
    ensures userId !in users || users[userId] == "" ==> name == "Unknown"
  {
    if userId in users && users[userId] != "" then users[userId] else "Unknown"
  }

  ghost function UnionOf(cs: seq<seq<int>>): set<int>
  {
    if cs == [] then {}
    else
      var last := cs[|cs| - 1];
      UnionOf(cs[..|cs| - 1]) + set x | x in last
  }

  function TotalLength(cs: seq<seq<int>>): nat
  {
    if cs == [] then 0 else TotalLength(cs[..|cs| - 1]) + |cs[|cs| - 1]|
  }

  lemma {:induction false} UnionMember(cs: seq<seq<int>>, x: int)
    ensures x in UnionOf(cs) <==> exists i :: 0 <= i < |cs| && x in cs[i]
  {
    if cs != [] {
      var t := cs[..|cs| - 1];
      UnionMember(t, x);
      if x in UnionOf(t) {
        var i :| 0 <= i < |t| && x in t[i];
        assert x in cs[i];
      }
      if i :| 0 <= i < |cs| && x in cs[i] {
        if i < |t| {
          assert x in t[i];
        }
      }
    }
  }

  ghost predicate PairwiseDisjoint(cs: seq<seq<int>>)
  {
    forall i, j, x :: 0 <= i < j < |cs| && x in cs[i] ==> x !in cs[j]
  }

  /** Disjoint lists without repeats hold, together, as many ids as their lengths add up to. */
  lemma {:induction false} UnionSize(cs: seq<seq<int>>)
    requires PairwiseDisjoint(cs)
    requires forall i :: 0 <= i < |cs| ==> Distinct(cs[i])
    ensures |UnionOf(cs)| == TotalLength(cs)
  {
    if cs != [] {
      var t, last := cs[..|cs| - 1], cs[|cs| - 1];
      assert PairwiseDisjoint(t);
      UnionSize(t);
      DistinctCard(last);
      forall x | x in UnionOf(t) ensures x !in last {
        UnionMember(t, x);
      }
      assert UnionOf(t) * (set x | x in last) == {};
    }
  }

  lemma {:induction false} SizesOfScored(cs: seq<seq<int>>)
    ensures SumSizes(ScoreGroups(cs)) == TotalLength(cs)
  {
    if cs != [] {
      var t := cs[..|cs| - 1];
      SizesOfScored(t);
      var gs := ScoreGroups(cs);
      assert gs[..|gs| - 1] == ScoreGroups(t);
    }
  }

  /** Under a partition, the sizes of o's components add up to o's number of checked boxes. */
  lemma OwnerSizes(g: map<string, seq<seq<int>>>, owners: map<int, string>, o: string)
    requires o in g
    requires WellFormed(g) && OnlyOwned(g, owners) && Covers(g, owners) && Disjoint(g)
    ensures TotalLength(g[o]) == |OwnedIds(owners, o)|
  {
    var cs := g[o];
    assert PairwiseDisjoint(cs) by {
      forall i, j, x | 0 <= i < j < |cs| && x in cs[i] ensures x !in cs[j] {
        assert InComp(g, o, i, x);
        if x in cs[j] {
          assert InComp(g, o, j, x);
        }
      }
    }
    UnionSize(cs);
    forall x ensures x in UnionOf(cs) <==> x in OwnedIds(owners, o) {
      UnionMember(cs, x);
      if x in OwnedIds(owners, o) {
        var i :| InComp(g, owners[x], i, x);
      }
      if x in UnionOf(cs) {
        var i :| 0 <= i < |cs| && x in cs[i];
        assert InComp(g, o, i, x);
      }
    }
    assert UnionOf(cs) == OwnedIds(owners, o);
  }

  /** The owners filed in a partition are exactly the owners of counted boxes. */
  lemma OwnersAreKeys(checkboxes: seq<Checkbox>, userGroups: UserGroups)
    requires DistinctIds(checkboxes) && userGroups.Valid()
    requires WellFormed(userGroups.table) && OnlyOwned(userGroups.table, Owners(checkboxes))
    requires Covers(userGroups.table, Owners(checkboxes))
    ensures forall u :: (exists c :: c in checkboxes && Counted(c) && Owner(c) == u) <==> u in userGroups.keys
  {
    var g, owners := userGroups.table, Owners(checkboxes);
    forall u ensures (exists c :: c in checkboxes && Counted(c) && Owner(c) == u) <==> u in userGroups.keys {
      if c :| c in checkboxes && Counted(c) && Owner(c) == u {
        OwnersMeaning(checkboxes, c.id, u);
        var i :| InComp(g, owners[c.id], i, c.id);
      }
      if u in userGroups.keys {
        var x := g[u][0][0];
        assert InComp(g, u, 0, x);
        OwnersMeaning(checkboxes, x, u);
      }
    }
  }

  /**
   * `calculateStats`: one entry per owner, in the order the components
   * were filed, with its groups' sizes and scores, the sum of the scores and
   * the owner's display name; and the number of checked boxes, owned or not.
   */
  method CalculateStats(checkboxes: seq<Checkbox>, users: map<string, string>)
      returns (stats: CheckboxStats, ghost userGroups: UserGroups)
    requires DistinctIds(checkboxes)
    ensures userGroups.Valid() && WellFormed(userGroups.table) && Disjoint(userGroups.table)
    ensures OnlyOwned(userGroups.table, Owners(checkboxes)) && Covers(userGroups.table, Owners(checkboxes))
    ensures Closed(userGroups.table, Owners(checkboxes))
    ensures stats.totalChecked == CountChecked(checkboxes)
    ensures UserIds(stats.userStats) == userGroups.keys && Distinct(UserIds(stats.userStats))
    ensures forall u :: (exists c :: c in checkboxes && Counted(c) && Owner(c) == u) <==> u in UserIds(stats.userStats)
    ensures forall s :: s in stats.userStats ==> EntryOf(s, userGroups.table, checkboxes, users)
  {
    var groupsByUser := FindConnectedComponents(checkboxes);
    userGroups := groupsByUser;
    var userStats: seq<UserStats> := [];
    for k := 0 to |groupsByUser.keys|
      invariant UserIds(userStats) == groupsByUser.keys[..k]
      invariant forall s :: s in userStats ==> EntryOf(s, groupsByUser.table, checkboxes, users)
    {
      var userId := groupsByUser.keys[k];
      var groups := groupsByUser.table[userId];
      var scored := ScoreGroups(groups);
      var entry := UserStats(userId, DisplayName(users, userId), SumScores(scored), scored);
      EntryFromPartition(checkboxes, users, groupsByUser.table, userId);
      userStats := userStats + [entry];
      assert groupsByUser.keys[..k + 1] == groupsByUser.keys[..k] + [userId];
    }
    assert groupsByUser.keys[..|groupsByUser.keys|] == groupsByUser.keys;
    OwnersAreKeys(checkboxes, groupsByUser);
    stats := CheckboxStats(CountChecked(checkboxes), userStats);
  }

  /**
   * What `calculateStats` promises of one user's entry: the display name, the
   * score as the sum of the group scores, each group nonempty and scored by
   * GroupScore, and the group sizes adding up to the user's checked boxes.
   */
  ghost predicate EntryHolds(s: UserStats, checkboxes: seq<Checkbox>, users: map<string, string>)
  {
    && s.name == DisplayName(users, s.userId)
    && s.score == SumScores(s.groups)
    && (forall g :: g in s.groups ==> g.size > 0 && g.score == GroupScore(g.size))
    && SumSizes(s.groups) == CountOwnedBy(checkboxes, s.userId)
  }

  /**
   * A user's entry is built from that user's components in the partition g:
   * one scored group per component, in order, and the entry meets EntryHolds.
   */
  ghost predicate EntryOf(s: UserStats, g: map<string, seq<seq<int>>>, checkboxes: seq<Checkbox>,
                          users: map<string, string>)
  {
    && s.userId in g
    && s.groups == ScoreGroups(g[s.userId])
    && EntryHolds(s, checkboxes, users)
  }

  /** The entry built from an owner's components in a partition meets EntryHolds. */
  lemma EntryFromPartition(checkboxes: seq<Checkbox>, users: map<string, string>,
                           g: map<string, seq<seq<int>>>, userId: string)
    requires DistinctIds(checkboxes) && userId in g
    requires WellFormed(g) && OnlyOwned(g, Owners(checkboxes)) && Covers(g, Owners(checkboxes)) && Disjoint(g)
    ensures var scored := ScoreGroups(g[userId]);
      EntryHolds(UserStats(userId, DisplayName(users, userId), SumScores(scored), scored), checkboxes, users)
  {
    var groups := g[userId];
    var scored := ScoreGroups(groups);
    SizesOfScored(groups);
    OwnerSizes(g, Owners(checkboxes), userId);
    CountOwnedIsOwnedIds(checkboxes, userId);
    forall x | x in scored ensures x.size > 0 && x.score == GroupScore(x.size) {
      var i :| 0 <= i < |scored| && scored[i] == x;
      assert |groups[i]| > 0;
    }
  }

  function UserIds(stats: seq<UserStats>): (ids: seq<string>)
    ensures |ids| == |stats| && forall i :: 0 <= i < |stats| ==> ids[i] == stats[i].userId
  {
    seq(|stats|, i requires 0 <= i < |stats| => stats[i].userId)
  }
}
