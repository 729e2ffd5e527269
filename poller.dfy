/**
 * Vote grouping and the reconciliation of pending optimistic votes with
 * synced ones (src/routes/visual-poller.tsx). Timestamps are milliseconds
 * since the epoch; a missing or unparsable `created_at` is `None`, and a
 * comparison with it is false (the NaN of `new Date(undefined).getTime()`).
 */
module Poller {
  import opened Wrappers
  import opened JsMap
  import opened Tally

  /** Synced votes carry numeric ids, optimistic ones the string `optimistic-<ms>`. */
  datatype VoteId = Num(n: int) | Text(s: string)

  datatype PollVote = PollVote(
    id: VoteId,
    pollId: int,
    userId: string,
    createdAt: Option<int>,
    updatedAt: Option<int>)

  /** The optimistic vote built by `onMutate` at time `now`. */
  function OptimisticVote(pollId: int, userId: string, now: int, nowText: string): (v: PollVote)
    ensures v.pollId == pollId && v.userId == userId && v.createdAt == Some(now)
    ensures v.id.Text? && v.id.s == "optimistic-" + nowText
  {
    PollVote(Text("optimistic-" + nowText), pollId, userId, Some(now), Some(now))
  }

  /** `votes.length + optimisticVotes.length`: pending mutations count whether or not they carry a vote. */
  function TotalVotes(votes: seq<PollVote>, optimistic: seq<Option<PollVote>>): (n: nat)
    ensures n >= |votes|
  {
    |votes| + |optimistic|
  }

  function PollIds(votes: seq<PollVote>): (ids: seq<int>)
    ensures |ids| == |votes| && forall i :: 0 <= i < |votes| ==> ids[i] == votes[i].pollId
  {
    seq(|votes|, i requires 0 <= i < |votes| => votes[i].pollId)
  }

  function UserIds(votes: seq<PollVote>): (ids: seq<string>)
    ensures |ids| == |votes| && forall i :: 0 <= i < |votes| ==> ids[i] == votes[i].userId
  {
    seq(|votes|, i requires 0 <= i < |votes| => votes[i].userId)
  }

  /** The votes of one poll, in input order. */
  function VotesOf(votes: seq<PollVote>, pollId: int): (r: seq<PollVote>)
    ensures forall v :: v in r <==> v in votes && v.pollId == pollId
    ensures |r| == Occurrences(PollIds(votes), pollId)
  {
    if votes == [] then []
    else
      var t := votes[..|votes| - 1];
      var last := votes[|votes| - 1];
      assert PollIds(votes)[..|votes| - 1] == PollIds(t);
      assert votes == t + [last];
      VotesOf(t, pollId) + (if last.pollId == pollId then [last] else [])
  }

  /** What `votesByPoll` holds for its input. */
  ghost predicate GroupedByPoll(grouped: OrderedMap<int, seq<PollVote>>, votes: seq<PollVote>)
  {
    && grouped.Valid()
    && (forall p :: p in grouped.table <==> p in PollIds(votes))
    && (forall p :: p in grouped.table ==> grouped.table[p] == VotesOf(votes, p))
  }

  /** `votesByPoll`: each poll's votes, in input order, keyed by poll id. */
  method VotesByPoll(votes: seq<PollVote>) returns (grouped: OrderedMap<int, seq<PollVote>>)
    ensures GroupedByPoll(grouped, votes)
  {
    grouped := Empty();
    for k := 0 to |votes|
      invariant GroupedByPoll(grouped, votes[..k])
    {
      var vote := votes[k];
      var pollVotes := if vote.pollId in grouped.table then grouped.table[vote.pollId] else [];
      GroupStep(grouped, votes, k);
      grouped := grouped.Set(vote.pollId, pollVotes + [vote]);
    }
    assert votes[..|votes|] == votes;
  }

  lemma GroupStep(grouped: OrderedMap<int, seq<PollVote>>, votes: seq<PollVote>, k: int)
    requires 0 <= k < |votes| && GroupedByPoll(grouped, votes[..k])
    ensures var p := votes[k].pollId;
      GroupedByPoll(grouped.Set(p, (if p in grouped.table then grouped.table[p] else []) + [votes[k]]), votes[..k + 1])
  {
    var t, vote := votes[..k], votes[k];
    assert votes[..k + 1] == t + [vote];
    PollIdsAppend(t, vote);
    forall p ensures VotesOf(t + [vote], p) == VotesOf(t, p) + (if vote.pollId == p then [vote] else []) {
      VotesOfAppend(t, vote, p);
    }
  }

  lemma PollIdsAppend(t: seq<PollVote>, v: PollVote)
    ensures PollIds(t + [v]) == PollIds(t) + [v.pollId]
  {
  }

  lemma VotesOfAppend(t: seq<PollVote>, v: PollVote, p: int)
    ensures VotesOf(t + [v], p) == VotesOf(t, p) + (if v.pollId == p then [v] else [])
  {
    assert (t + [v])[..|t|] == t;
  }

  /** The total length of the lists filed under `keys`. */
  function ListedTotal(keys: seq<int>, table: map<int, seq<PollVote>>): nat
  {
    if keys == [] then 0
    else
      var k := keys[|keys| - 1];
      ListedTotal(keys[..|keys| - 1], table) + (if k in table then |table[k]| else 0)
  }

  /** The per-poll lists together hold every vote exactly once. */
  lemma GroupedTotal(grouped: OrderedMap<int, seq<PollVote>>, votes: seq<PollVote>)
    requires GroupedByPoll(grouped, votes)
    ensures ListedTotal(grouped.keys, grouped.table) == |votes|
  {
    ListedIsOccurrences(grouped.keys, grouped.table, votes);
    SumOfOccurrences(PollIds(votes), grouped.keys);
  }

  lemma {:induction false} ListedIsOccurrences(keys: seq<int>, table: map<int, seq<PollVote>>, votes: seq<PollVote>)
    requires forall p :: p in keys ==> p in table && table[p] == VotesOf(votes, p)
    ensures ListedTotal(keys, table) == SumOccurrences(PollIds(votes), keys)
  {
    if keys != [] {
      ListedIsOccurrences(keys[..|keys| - 1], table, votes);
    }
  }

  /** With the grouping of `votes`, the total is every vote plus every pending vote mutation. */
  lemma TotalVotesIsGroupedTotal(grouped: OrderedMap<int, seq<PollVote>>, votes: seq<PollVote>, optimistic: seq<Option<PollVote>>)
    requires GroupedByPoll(grouped, votes)
    ensures TotalVotes(votes, optimistic) == ListedTotal(grouped.keys, grouped.table) + |optimistic|
  {
    GroupedTotal(grouped, votes);
  }

  /** `votesByUser`: how many votes each user cast, keyed by user id. */
  method VotesByUser(votes: seq<PollVote>) returns (counts: OrderedMap<string, nat>)
    ensures counts.Valid()
    ensures forall u :: u in counts.table <==> u in UserIds(votes)
    ensures forall u :: u in counts.table ==> counts.table[u] == Occurrences(UserIds(votes), u) && counts.table[u] >= 1
  {
    counts := Empty();
    for k := 0 to |votes|
      invariant counts.Valid()
      invariant forall u :: u in counts.table <==> u in UserIds(votes[..k])
      invariant forall u :: u in counts.table ==> counts.table[u] == Occurrences(UserIds(votes[..k]), u)
    {
      var vote := votes[k];
      assert votes[..k + 1] == votes[..k] + [vote];
      assert UserIds(votes[..k + 1]) == UserIds(votes[..k]) + [vote.userId];
      // `counts.get(user) || 0`: a stored count is never 0, so this is the stored count or 0.
      var prior := if vote.userId in counts.table then counts.table[vote.userId] else 0;
      counts := counts.Set(vote.userId, prior + 1);
    }
    assert votes[..|votes|] == votes;
  }

  function CountTotal(keys: seq<string>, table: map<string, nat>): nat
  {
    if keys == [] then 0
    else
      var k := keys[|keys| - 1];
      CountTotal(keys[..|keys| - 1], table) + (if k in table then table[k] else 0)
  }

  /** The per-user counts add up to the number of votes. */
  lemma VotesByUserTotal(counts: OrderedMap<string, nat>, votes: seq<PollVote>)
    requires counts.Valid()
    requires forall u :: u in counts.table <==> u in UserIds(votes)
    requires forall u :: u in counts.table ==> counts.table[u] == Occurrences(UserIds(votes), u)
    ensures CountTotal(counts.keys, counts.table) == |votes|
  {
    CountIsOccurrences(counts.keys, counts.table, votes);
    SumOfOccurrences(UserIds(votes), counts.keys);
  }

  lemma {:induction false} CountIsOccurrences(keys: seq<string>, table: map<string, nat>, votes: seq<PollVote>)
    requires forall u :: u in keys ==> u in table && table[u] == Occurrences(UserIds(votes), u)
    ensures CountTotal(keys, table) == SumOccurrences(UserIds(votes), keys)
  {
    if keys != [] {
      CountIsOccurrences(keys[..|keys| - 1], table, votes);
    }
  }

  // ---- getVotesForPoll ----

  /** `votesByPoll.get(pollId) || []`. */
  function RealVotesFor(votesByPoll: OrderedMap<int, seq<PollVote>>, pollId: int): seq<PollVote>
  {
    if pollId in votesByPoll.table then votesByPoll.table[pollId] else []
  }

  /** `realVotes.forEach(vote => votesMap.set(vote.id, vote))`. */
  function Keyed(synced: seq<PollVote>): (m: OrderedMap<VoteId, PollVote>)
    ensures m.Valid()
  {
    if synced == [] then Empty()
    else
      var v := synced[|synced| - 1];
      Keyed(synced[..|synced| - 1]).Set(v.id, v)
  }

  /**
   * The match test of the `find`: same poll, same user, and created less than
   * a second before `now`.
   */
  predicate Recent(existing: PollVote, vote: PollVote, now: int)
  {
    && existing.pollId == vote.pollId
    && existing.userId == vote.userId
    && existing.createdAt.Some?
    && existing.createdAt.value > now - 1000
  }

  /** The index of the first recent match among `values`, or -1. */
  function FirstRecent(values: seq<PollVote>, vote: PollVote, now: int): (i: int)
    ensures -1 <= i < |values|
    ensures i >= 0 ==> Recent(values[i], vote, now)
    ensures forall j :: 0 <= j < |values| && (i < 0 || j < i) ==> !Recent(values[j], vote, now)
  {
    if values == [] then -1
    else if Recent(values[0], vote, now) then 0
    else
      var i := FirstRecent(values[1..], vote, now);
      if i < 0 then -1 else i + 1
  }

  /**
   * One optimistic vote for the poll: it is stored under the id of the first
   * recent match (the matched value's own `id`), or under its own id. Either
   * way the map grows by at most one entry, and the vote is among the values.
   */
  function Reconcile(m: OrderedMap<VoteId, PollVote>, vote: PollVote, now: int): (r: OrderedMap<VoteId, PollVote>)
    requires m.Valid()
    ensures r.Valid()
    ensures |m.keys| <= |r.keys| <= |m.keys| + 1
  {
    var values := m.Values();
    var i := FirstRecent(values, vote, now);
    var key := if i >= 0 then values[i].id else vote.id;
    m.Set(key, vote)
  }

  /**
   * The two ways of a reconcile step: with no recent match the vote is set
   * under its own id; otherwise it is set under the `id` field of the first
   * recent match in insertion order, which may differ from that entry's key.
   */
  lemma ReconcileCases(m: OrderedMap<VoteId, PollVote>, vote: PollVote, now: int)
    requires m.Valid()
    ensures (forall k :: k in m.table ==> !Recent(m.table[k], vote, now)) ==>
      Reconcile(m, vote, now) == m.Set(vote.id, vote)
    ensures forall i ::
      (0 <= i < |m.keys| && Recent(m.table[m.keys[i]], vote, now) &&
       forall j :: 0 <= j < i ==> !Recent(m.table[m.keys[j]], vote, now)) ==>
      Reconcile(m, vote, now) == m.Set(m.table[m.keys[i]].id, vote)
  {
    var values := m.Values();
    var f := FirstRecent(values, vote, now);
    if f >= 0 {
      assert m.keys[f] in m.table;
    }
    forall i | 0 <= i < |m.keys| && Recent(m.table[m.keys[i]], vote, now) &&
        (forall j :: 0 <= j < i ==> !Recent(m.table[m.keys[j]], vote, now))
      ensures f == i
    {
      assert Recent(values[i], vote, now);
    }
  }

  /** After a reconcile step the vote is shown, and every other shown vote was shown before. */
  lemma ReconcileValues(m: OrderedMap<VoteId, PollVote>, vote: PollVote, now: int)
    requires m.Valid()
    ensures vote in Reconcile(m, vote, now).Values()
    ensures forall v :: v in Reconcile(m, vote, now).Values() ==> v == vote || v in m.Values()
  {
    var values := m.Values();
    var i := FirstRecent(values, vote, now);
    SetValues(m, if i >= 0 then values[i].id else vote.id, vote);
  }

  /** After `set(k, v)`, `v` is a value and every other value was one before. */
  lemma SetValues<K, V>(m: OrderedMap<K, V>, k: K, v: V)
    requires m.Valid()
    ensures v in m.Set(k, v).Values()
    ensures forall x :: x in m.Set(k, v).Values() ==> x == v || x in m.Values()
  {
    var r := m.Set(k, v);
    var i :| 0 <= i < |r.keys| && r.keys[i] == k;
    assert r.Values()[i] == v;
    forall x | x in r.Values() ensures x == v || x in m.Values() {
      var j :| 0 <= j < |r.keys| && r.Values()[j] == x;
      if r.keys[j] != k {
        var j' :| 0 <= j' < |m.keys| && m.keys[j'] == r.keys[j];
        assert m.Values()[j'] == x;
      }
    }
  }

  /** The optimistic votes that belong to the poll. */
  function OptimisticFor(optimistic: seq<Option<PollVote>>, pollId: int): (n: nat)
    ensures n <= |optimistic|
  {
    if optimistic == [] then 0
    else
      var o := optimistic[|optimistic| - 1];
      OptimisticFor(optimistic[..|optimistic| - 1], pollId) + (if o.Some? && o.value.pollId == pollId then 1 else 0)
  }

  /** `optimisticVotes.forEach(...)` over the map of synced votes. */
  function ApplyOptimistic(m: OrderedMap<VoteId, PollVote>, optimistic: seq<Option<PollVote>>, pollId: int, now: int)
    : (r: OrderedMap<VoteId, PollVote>)
    requires m.Valid()
    ensures r.Valid()
    ensures |m.keys| <= |r.keys| <= |m.keys| + OptimisticFor(optimistic, pollId)
  {
    if optimistic == [] then m
    else
      var prior := ApplyOptimistic(m, optimistic[..|optimistic| - 1], pollId, now);
      var o := optimistic[|optimistic| - 1];
      if o.Some? && o.value.pollId == pollId then Reconcile(prior, o.value, now) else prior
  }

  /** Every shown vote is a keyed real vote or an optimistic vote for the poll. */
  lemma {:induction false} ApplyOptimisticValues(m: OrderedMap<VoteId, PollVote>, optimistic: seq<Option<PollVote>>,
                                                 pollId: int, now: int)
    requires m.Valid()
    ensures forall v :: v in ApplyOptimistic(m, optimistic, pollId, now).Values() ==>
      v in m.Values() || (Some(v) in optimistic && v.pollId == pollId)
  {
    if optimistic != [] {
      var t := optimistic[..|optimistic| - 1];
      ApplyOptimisticValues(m, t, pollId, now);
      var o := optimistic[|optimistic| - 1];
      assert forall x :: x in t ==> x in optimistic;
      if o.Some? && o.value.pollId == pollId {
        ReconcileValues(ApplyOptimistic(m, t, pollId, now), o.value, now);
      }
    }
  }

  /** The poll's votes as `getVotesForPoll` returns them. */
  function ForPoll(synced: seq<PollVote>, optimistic: seq<Option<PollVote>>, pollId: int, now: int): seq<PollVote>
  {
    ApplyOptimistic(Keyed(synced), optimistic, pollId, now).Values()
  }

  /** `getVotesForPoll(pollId)`, with `Date.now()` read once as `now`. */
  method GetVotesForPoll(votesByPoll: OrderedMap<int, seq<PollVote>>, optimistic: seq<Option<PollVote>>,
                         pollId: int, now: int) returns (result: seq<PollVote>)
    ensures result == ForPoll(RealVotesFor(votesByPoll, pollId), optimistic, pollId, now)
  {
    var realVotes := if pollId in votesByPoll.table then votesByPoll.table[pollId] else [];
    var votesMap: OrderedMap<VoteId, PollVote> := Empty();
    for k := 0 to |realVotes|
      invariant votesMap == Keyed(realVotes[..k])
    {
      KeyedStep(realVotes, k);
      votesMap := votesMap.Set(realVotes[k].id, realVotes[k]);
    }
    assert realVotes[..|realVotes|] == realVotes;
    ghost var base := votesMap;
    for k := 0 to |optimistic|
      invariant votesMap.Valid()
      invariant votesMap == ApplyOptimistic(base, optimistic[..k], pollId, now)
    {
      ApplyStep(base, optimistic, k, pollId, now);
      if optimistic[k].Some? && optimistic[k].value.pollId == pollId {
        var vote := optimistic[k].value;
        var values := votesMap.Values();
        var existing := FirstRecent(values, vote, now);
        if existing >= 0 {
          // `{ ...existingVote, ...vote }`: every field comes from the optimistic vote.
          votesMap := votesMap.Set(values[existing].id, vote);
        } else {
          votesMap := votesMap.Set(vote.id, vote);
        }
      }
    }
    assert optimistic[..|optimistic|] == optimistic;
    result := votesMap.Values();
  }

  lemma KeyedStep(synced: seq<PollVote>, k: int)
    requires 0 <= k < |synced|
    ensures Keyed(synced[..k + 1]) == Keyed(synced[..k]).Set(synced[k].id, synced[k])
  {
    assert synced[..k + 1][..k] == synced[..k];
  }

  lemma ApplyStep(m: OrderedMap<VoteId, PollVote>, optimistic: seq<Option<PollVote>>, k: int, pollId: int, now: int)
    requires m.Valid() && 0 <= k < |optimistic|
    ensures var prior := ApplyOptimistic(m, optimistic[..k], pollId, now);
      ApplyOptimistic(m, optimistic[..k + 1], pollId, now) ==
        if optimistic[k].Some? && optimistic[k].value.pollId == pollId
        then Reconcile(prior, optimistic[k].value, now) else prior
  {
    assert optimistic[..k + 1][..k] == optimistic[..k];
  }

  function VoteIds(votes: seq<PollVote>): set<VoteId>
  {
    set v | v in votes :: v.id
  }

  /**
   * Keying the synced votes deduplicates them by id: one value per distinct id,
   * each a synced vote filed under its own id (KeyedValuesOrder gives the order
   * and which duplicate is kept).
   */
  lemma KeyedMeaning(synced: seq<PollVote>)
    ensures Keyed(synced).table.Keys == VoteIds(synced)
    ensures |Keyed(synced).keys| == |VoteIds(synced)|
    ensures forall k :: k in Keyed(synced).table ==> Keyed(synced).table[k].id == k && Keyed(synced).table[k] in synced
  {
    KeyedKeys(synced);
    KeyedEntries(synced);
    SizeIsKeyCount(Keyed(synced));
  }

  lemma {:induction false} KeyedKeys(synced: seq<PollVote>)
    ensures Keyed(synced).table.Keys == VoteIds(synced)
  {
    if synced != [] {
      var t, v := synced[..|synced| - 1], synced[|synced| - 1];
      KeyedKeys(t);
      assert synced == t + [v];
      assert VoteIds(synced) == VoteIds(t) + {v.id};
    }
  }

  lemma {:induction false} KeyedEntries(synced: seq<PollVote>)
    ensures forall k :: k in Keyed(synced).table ==> Keyed(synced).table[k].id == k && Keyed(synced).table[k] in synced
  {
    if synced != [] {
      var t, v := synced[..|synced| - 1], synced[|synced| - 1];
      KeyedEntries(t);
      assert synced == t + [v];
      assert forall x :: x in t ==> x in synced;
    }
  }

  /** The index of the first vote with id k, or |s| when there is none. */
  function FirstVoteIndex(s: seq<PollVote>, k: VoteId): (i: nat)
    ensures i <= |s|
    ensures i < |s| ==> s[i].id == k
    ensures forall j :: 0 <= j < i ==> s[j].id != k
  {
    if s == [] then 0
    else if s[0].id == k then 0
    else
      var i := FirstVoteIndex(s[1..], k);
      assert forall j :: 1 <= j < |s| ==> s[1..][j - 1] == s[j];
      1 + i
  }

  /** The index of the last vote with id k, or -1 when there is none. */
  function LastVoteIndex(s: seq<PollVote>, k: VoteId): (i: int)
    ensures -1 <= i < |s|
    ensures i >= 0 ==> s[i].id == k
    ensures forall j :: i < j < |s| ==> s[j].id != k
  {
    if s == [] then -1
    else if s[|s| - 1].id == k then |s| - 1
    else LastVoteIndex(s[..|s| - 1], k)
  }

  /** Appending a vote leaves the first occurrence of an id already present where it was. */
  lemma FirstVoteIndexAppend(t: seq<PollVote>, v: PollVote, k: VoteId)
    requires k in VoteIds(t)
    ensures FirstVoteIndex(t + [v], k) == FirstVoteIndex(t, k) < |t|
  {
    var x :| x in t && x.id == k;
    var j :| 0 <= j < |t| && t[j] == x;
    var a := FirstVoteIndex(t, k);
    assert a <= j;
    var s := t + [v];
    assert s[a] == t[a];
    assert forall i :: 0 <= i < a ==> s[i] == t[i];
  }

  /** A vote with a new id has its first occurrence at its own position. */
  lemma FirstVoteIndexNew(t: seq<PollVote>, v: PollVote)
    requires v.id !in VoteIds(t)
    ensures FirstVoteIndex(t + [v], v.id) == |t|
  {
    var s := t + [v];
    assert s[|t|].id == v.id;
    assert forall i :: 0 <= i < |t| ==> s[i] == t[i] && t[i] in t;
  }

  /** Keying the synced votes files under each id the last synced vote carrying it. */
  lemma {:induction false} KeyedLast(synced: seq<PollVote>)
    ensures forall k :: k in Keyed(synced).table ==>
      LastVoteIndex(synced, k) >= 0 && Keyed(synced).table[k] == synced[LastVoteIndex(synced, k)]
  {
    if synced != [] {
      var t, v := synced[..|synced| - 1], synced[|synced| - 1];
      assert synced == t + [v];
      KeyedLast(t);
      var m := Keyed(t);
      forall k | k in m.table && k != v.id
        ensures LastVoteIndex(synced, k) == LastVoteIndex(t, k) >= 0
        ensures synced[LastVoteIndex(t, k)] == t[LastVoteIndex(t, k)]
      {
      }
    }
  }

  /** Keying the synced votes lists the distinct ids in the order of their first occurrence. */
  lemma {:induction false} KeyedFirstOrder(synced: seq<PollVote>)
    ensures forall i, j :: 0 <= i < j < |Keyed(synced).keys| ==>
      FirstVoteIndex(synced, Keyed(synced).keys[i]) < FirstVoteIndex(synced, Keyed(synced).keys[j])
  {
    if synced != [] {
      var t, v := synced[..|synced| - 1], synced[|synced| - 1];
      assert synced == t + [v];
      KeyedFirstOrder(t);
      KeyedKeys(t);
      var m := Keyed(t);
      forall i | 0 <= i < |m.keys|
        ensures FirstVoteIndex(synced, m.keys[i]) == FirstVoteIndex(t, m.keys[i]) < |t|
      {
        assert m.keys[i] in m.table;
        FirstVoteIndexAppend(t, v, m.keys[i]);
      }
      if v.id !in m.table {
        FirstVoteIndexNew(t, v);
      }
    }
  }

  /**
   * The values of the keyed votes: each is the last synced vote with its id, and
   * their ids come in the order of first occurrence.
   */
  lemma KeyedValuesOrder(synced: seq<PollVote>)
    ensures var r := Keyed(synced).Values();
      forall i :: 0 <= i < |r| ==> LastVoteIndex(synced, r[i].id) >= 0 && r[i] == synced[LastVoteIndex(synced, r[i].id)]
    ensures var r := Keyed(synced).Values();
      forall i, j :: 0 <= i < j < |r| ==> FirstVoteIndex(synced, r[i].id) < FirstVoteIndex(synced, r[j].id)
  {
    var m := Keyed(synced);
    KeyedEntries(synced);
    KeyedLast(synced);
    KeyedFirstOrder(synced);
    forall i | 0 <= i < |m.keys| ensures m.Values()[i].id == m.keys[i] {
      assert m.keys[i] in m.table;
    }
  }

  /** With distinct synced ids, keying keeps every vote in its place. */
  lemma {:induction false} KeyedDistinct(synced: seq<PollVote>)
    requires forall i, j :: 0 <= i < j < |synced| ==> synced[i].id != synced[j].id
    ensures Keyed(synced).Values() == synced
  {
    if synced != [] {
      var t, v := synced[..|synced| - 1], synced[|synced| - 1];
      assert synced == t + [v];
      assert forall i, j :: 0 <= i < j < |t| ==> t[i].id != t[j].id by {
        assert forall i :: 0 <= i < |t| ==> t[i] == synced[i];
      }
      KeyedDistinct(t);
      KeyedKeys(t);
      LastIdIsNew(synced);
      SetNewValues(Keyed(t), v.id, v);
    }
  }

  /** With distinct ids, the last vote's id does not occur before it. */
  lemma LastIdIsNew(synced: seq<PollVote>)
    requires synced != []
    requires forall i, j :: 0 <= i < j < |synced| ==> synced[i].id != synced[j].id
    ensures synced[|synced| - 1].id !in VoteIds(synced[..|synced| - 1])
  {
    var t := synced[..|synced| - 1];
    forall x | x in t ensures x.id != synced[|synced| - 1].id {
      var j :| 0 <= j < |t| && t[j] == x;
      assert synced[j] == x;
    }
  }

  /** Setting a new key appends its value to the values. */
  lemma SetNewValues<K, V>(m: OrderedMap<K, V>, k: K, v: V)
    requires m.Valid() && k !in m.table
    ensures m.Set(k, v).Values() == m.Values() + [v]
  {
    var m' := m.Set(k, v);
    assert m'.keys == m.keys + [k];
    forall i | 0 <= i < |m.keys| ensures m'.Values()[i] == m.Values()[i] {
      assert m.keys[i] in m.table;
    }
  }

  /** Every vote returned for a poll belongs to it, when the grouping is that of `votes`. */
  lemma ForPollOnlyThisPoll(votes: seq<PollVote>, votesByPoll: OrderedMap<int, seq<PollVote>>,
                            optimistic: seq<Option<PollVote>>, pollId: int, now: int)
    requires GroupedByPoll(votesByPoll, votes)
    ensures forall v :: v in ForPoll(RealVotesFor(votesByPoll, pollId), optimistic, pollId, now) ==> v.pollId == pollId
  {
    var synced := RealVotesFor(votesByPoll, pollId);
    assert forall v :: v in synced ==> v.pollId == pollId;
    KeyedValuesFrom(synced);
    ApplyOptimisticValues(Keyed(synced), optimistic, pollId, now);
  }

  /** The keyed map shows only real votes. */
  lemma KeyedValuesFrom(synced: seq<PollVote>)
    ensures forall v :: v in Keyed(synced).Values() ==> v in synced
  {
    var m := Keyed(synced);
    KeyedEntries(synced);
    forall v | v in m.Values() ensures v in synced {
      var i :| 0 <= i < |m.keys| && m.Values()[i] == v;
      assert m.keys[i] in m.table;
    }
  }

  /**
   * The result has at least one vote per distinct synced id and at most one more
   * per optimistic vote for the poll.
   */
  lemma ForPollLength(synced: seq<PollVote>, optimistic: seq<Option<PollVote>>, pollId: int, now: int)
    ensures |VoteIds(synced)| <= |ForPoll(synced, optimistic, pollId, now)| <= |VoteIds(synced)| + OptimisticFor(optimistic, pollId)
  {
    KeyedMeaning(synced);
  }

  lemma {:induction false} NoOptimisticIsIdentity(m: OrderedMap<VoteId, PollVote>, optimistic: seq<Option<PollVote>>, pollId: int, now: int)
    requires m.Valid() && OptimisticFor(optimistic, pollId) == 0
    ensures ApplyOptimistic(m, optimistic, pollId, now) == m
  {
    if optimistic != [] {
      NoOptimisticIsIdentity(m, optimistic[..|optimistic| - 1], pollId, now);
    }
  }

  /** With no pending vote for the poll, the result is the synced votes deduplicated by id. */
  lemma ForPollWithoutOptimistic(synced: seq<PollVote>, optimistic: seq<Option<PollVote>>, pollId: int, now: int)
    requires OptimisticFor(optimistic, pollId) == 0
    ensures ForPoll(synced, optimistic, pollId, now) == Keyed(synced).Values()
    ensures |ForPoll(synced, optimistic, pollId, now)| == |VoteIds(synced)|
    ensures forall v :: v in ForPoll(synced, optimistic, pollId, now) ==> v in synced
    ensures var r := ForPoll(synced, optimistic, pollId, now);
      forall i :: 0 <= i < |r| ==> LastVoteIndex(synced, r[i].id) >= 0 && r[i] == synced[LastVoteIndex(synced, r[i].id)]
    ensures var r := ForPoll(synced, optimistic, pollId, now);
      forall i, j :: 0 <= i < j < |r| ==> FirstVoteIndex(synced, r[i].id) < FirstVoteIndex(synced, r[j].id)
  {
    NoOptimisticIsIdentity(Keyed(synced), optimistic, pollId, now);
    KeyedMeaning(synced);
    KeyedValuesFrom(synced);
    KeyedValuesOrder(synced);
  }

  /** With distinct synced ids (database keys) and no pending vote for the poll, the synced votes come back unchanged. */
  lemma ForPollDistinct(synced: seq<PollVote>, optimistic: seq<Option<PollVote>>, pollId: int, now: int)
    requires forall i, j :: 0 <= i < j < |synced| ==> synced[i].id != synced[j].id
    requires OptimisticFor(optimistic, pollId) == 0
    ensures ForPoll(synced, optimistic, pollId, now) == synced
  {
    NoOptimisticIsIdentity(Keyed(synced), optimistic, pollId, now);
    KeyedDistinct(synced);
  }

  /** The latest pending vote for the poll is always shown. */
  lemma LatestOptimisticShown(synced: seq<PollVote>, optimistic: seq<Option<PollVote>>, pollId: int, now: int)
    requires |optimistic| > 0
    requires optimistic[|optimistic| - 1].Some? && optimistic[|optimistic| - 1].value.pollId == pollId
    ensures optimistic[|optimistic| - 1].value in ForPoll(synced, optimistic, pollId, now)
  {
    var t := optimistic[..|optimistic| - 1];
    ReconcileValues(ApplyOptimistic(Keyed(synced), t, pollId, now), optimistic[|optimistic| - 1].value, now);
  }

  /**
   * A merge files the optimistic vote under the matched VALUE's id. When that
   * value was itself an earlier optimistic vote stored under a synced id, the
   * new vote is appended under the earlier optimistic id instead of replacing
   * the shown entry: a synced vote and two pending votes by the same user,
   * all within the second, show as two votes.
   */
  lemma RepeatedMergeAppends(r: PollVote, o1: PollVote, o2: PollVote, now: int)
    requires r.pollId == o1.pollId == o2.pollId
    requires Recent(r, o1, now) && Recent(o1, o2, now) && o1.id != r.id
    ensures ForPoll([r], [Some(o1), Some(o2)], r.pollId, now) == [o1, o2]
  {
    var p := r.pollId;
    KeyedOne(r);
    ApplyTwo(Keyed([r]), o1, o2, p, now);
    MergeIntoSingle(r.id, r, o1, now);
    MergeIntoSingle(r.id, o1, o2, now);
    var m2 := OrderedMap([r.id, o1.id], map[r.id := o1, o1.id := o2]);
    assert m2.Values() == [o1, o2];
  }

  lemma KeyedOne(v: PollVote)
    ensures Keyed([v]) == OrderedMap([v.id], map[v.id := v])
  {
    assert [v][..0] == [];
    assert Keyed([]) == Empty();
  }

  lemma ApplyTwo(m: OrderedMap<VoteId, PollVote>, o1: PollVote, o2: PollVote, pollId: int, now: int)
    requires m.Valid() && o1.pollId == pollId && o2.pollId == pollId
    ensures ApplyOptimistic(m, [Some(o1), Some(o2)], pollId, now) == Reconcile(Reconcile(m, o1, now), o2, now)
  {
    var opt := [Some(o1), Some(o2)];
    assert opt[..1] == [Some(o1)] && [Some(o1)][..0] == [];
    assert ApplyOptimistic(m, [], pollId, now) == m;
    assert ApplyOptimistic(m, [Some(o1)], pollId, now) == Reconcile(m, o1, now);
  }

  /** A recent match in a one-entry map is overwritten under the matched value's id. */
  lemma MergeIntoSingle(k: VoteId, e: PollVote, o: PollVote, now: int)
    requires Recent(e, o, now)
    ensures Reconcile(OrderedMap([k], map[k := e]), o, now) ==
      if e.id == k then OrderedMap([k], map[k := o]) else OrderedMap([k, e.id], map[k := e, e.id := o])
  {
    var m := OrderedMap([k], map[k := e]);
    assert m.Values() == [e];
    assert FirstRecent([e], o, now) == 0;
  }
}
