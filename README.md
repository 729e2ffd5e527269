# electric-workshop client logic in Dafny

A model of the deterministic logic of the electric-workshop demo client. It covers:

- **The 1000-checkbox game.** The board is 50 × 20 with ids counted from 1. The model covers the grid arithmetic and the depth-first flood fill that groups each player's checked boxes into 4-connected components. It also covers the integer score `floor(size^1.5)`, the per-player statistics, the overlay of pending optimistic checkbox states on the synced rows, and the toggle rule of an optimistic click.
- **The visual poller.** The model covers grouping votes by poll, counting votes per user, the total vote count, and the reconciliation of pending optimistic votes with synced ones.
- **The todo list.** The model covers toggling and adding todos.
- **The avatar.** The model covers the 32-bit string hash, the palette colour it selects, the size table and the font-size clamp.

Modules:

- `Wrappers` holds `Option`.
- `JsMap` models a JavaScript `Map` as a value: keys in insertion order plus a table. `set` keeps a present key's position and appends a new key.
- `Tally` holds occurrence counts.
- `Grid`, `Checkboxes`, `Components`, `Scoring` and `CheckboxMerge` model src/routes/checkbox-game.tsx.
- `Poller` models src/routes/visual-poller.tsx.
- `Todos` models src/routes/todos.tsx.
- `Avatar` models src/components/avatar.tsx. It also stands for the identical hash and colour code at src/routes/checkbox-game.tsx:135-152.

The imperative parts of the source become methods with loops, each proved against a specification function or predicate: `findConnectedComponents`, `calculateStats`, the `checkboxMap` merge, `votesByPoll`, `votesByUser` and `getVotesForPoll`. The pure parts become functions with lemmas.

JavaScript semantics that the model writes out:

- `%` truncates toward zero (`Grid.JsRem`).
- `<<` converts its operand and its result with ToInt32 (`Avatar.ToInt32`, `Avatar.ShiftLeft5`).
- `split('')` and `charCodeAt` work on UTF-16 code units (`Avatar.CodeUnits`).
- `null` and `""` are both falsy. This matters for `user_id` and for `users.get(id) || 'Unknown'`.
- `String.prototype.trim` uses its own white-space set (`Todos.IsJsWhitespace`).

In `getVotesForPoll`, a matched vote is stored under the matched value's `id` field, not under the key where the match was found. After one merge that value is the optimistic vote, so a second recent optimistic vote from the same user is added as a new entry instead of replacing the first (`Poller.RepeatedMergeAppends`). The model follows the code as written.

## Model

| member | source | states |
|---|---|---|
| Grid.JsRem | src/routes/checkbox-game.tsx:50 | a = b·q + r for the quotient q truncated toward zero, with r of the dividend's sign and \|r\| < b: JavaScript's `%` |
| Grid.Coordinates | src/routes/checkbox-game.tsx:48-53 | for any id ≥ 1: 0 ≤ x < 50, y ≥ 0 and y·50 + x + 1 = id; for ids up to 1000 also y < 20 |
| Grid.CoordinatesOfIdAt | src/routes/checkbox-game.tsx:48-53 | every cell (x, y) of the grid has an id ≥ 1 whose coordinates are (x, y) |
| Grid.AdjacentSymmetric | src/routes/checkbox-game.tsx:56-64 | adjacency is symmetric |
| Grid.AdjacentIrreflexive | src/routes/checkbox-game.tsx:56-64 | no box is adjacent to itself |
| Grid.AdjacentById | src/routes/checkbox-game.tsx:56-64 | two ids are adjacent exactly when they differ by 50, or differ by 1 within the same row |
| Grid.AdjacentOnBoard | src/routes/checkbox-game.tsx:56-64 | a neighbour of a board id lies at most one row past the board |
| Checkboxes.CheckedOwned | src/routes/checkbox-game.tsx:68 | the result holds exactly the boxes that are checked and have a truthy owner |
| Checkboxes.CountChecked | src/routes/checkbox-game.tsx:130 | the count is at most the length; it equals the length iff every box is checked; it is 0 iff none is |
| Checkboxes.OwnersMeaning | src/routes/checkbox-game.tsx:68 | the owner index of the filtered boxes maps an id to o iff a checked box with that id is owned by o |
| Checkboxes.CountOwnedIsOwnedIds | src/routes/checkbox-game.tsx:68 | with distinct ids, a user's checked-box count equals the number of ids the owner index gives them |
| Components.FreeNeighbours | src/routes/checkbox-game.tsx:86-90 | the result holds exactly the unvisited, same-owner, adjacent boxes |
| Components.NeighboursByOwner | src/routes/checkbox-game.tsx:86-90 | over counted boxes with distinct ids, the neighbours found are exactly the unvisited adjacent ids of the same owner in the owner index |
| Components.FillStep | src/routes/checkbox-game.tsx:79-92 | popping an unvisited id, adding it and pushing its free neighbours keeps the flood-fill invariant |
| Components.FillSkip | src/routes/checkbox-game.tsx:79-80 | popping an already visited id keeps the flood-fill invariant |
| Components.FloodFill | src/routes/checkbox-game.tsx:75-93 | the component starts at the box, repeats no id and is connected; its members are new and share the box's owner; visited grows by exactly the component; every same-owner neighbour of a member ends up visited |
| Components.AddComponent | src/routes/checkbox-game.tsx:95-98 | filing a fresh component under its owner keeps the partition invariant: well formed, owner-only, disjoint, closed, and matching the visited set |
| Components.FileStep | src/routes/checkbox-game.tsx:72-99 | one outer round keeps the partition invariant and marks the current box visited |
| Components.FindConnectedComponents | src/routes/checkbox-game.tsx:67-102 | the groups partition the checked, owned boxes: each lies in exactly one component filed under its own owner; components are non-empty, connected and maximal; every owner has at least one |
| Scoring.Isqrt | src/routes/checkbox-game.tsx:106 | r² ≤ n < (r+1)² |
| Scoring.IsqrtIsLargest | src/routes/checkbox-game.tsx:106 | every m with m² ≤ n is at most the root |
| Scoring.GroupScore | src/routes/checkbox-game.tsx:105-107 | n² ≤ size³ < (n+1)², i.e. n = floor(size^1.5) |
| Scoring.ScoreIsLargest | src/routes/checkbox-game.tsx:105-107 | the score is the largest n with n² ≤ size³ |
| Scoring.GroupScoreSamples | src/routes/checkbox-game.tsx:105-107 | sizes 0, 1, 2, 3, 4 score 0, 1, 2, 5, 8 |
| Scoring.GroupScoreMonotone | src/routes/checkbox-game.tsx:105-107 | the score never decreases as the size grows |
| Scoring.GroupScoreAtLeastSize | src/routes/checkbox-game.tsx:105-107 | a group scores at least its size |
| Scoring.GroupScoreSuperadditive | src/routes/checkbox-game.tsx:105-107 | merging two groups never lowers the total: score(a) + score(b) ≤ score(a + b) |
| Scoring.ScoreGroups | src/routes/checkbox-game.tsx:116-119 | one group per component, with the component's size and that size's score |
| Scoring.DisplayName | src/routes/checkbox-game.tsx:115 | the user's name when it is known and non-empty, otherwise 'Unknown' |
| Scoring.OwnerSizes | src/routes/checkbox-game.tsx:110-127 | in a partition, an owner's component sizes sum to the number of ids the owner index gives them |
| Scoring.OwnersAreKeys | src/routes/checkbox-game.tsx:114 | the owners filed in the partition are exactly the owners of counted boxes |
| Scoring.EntryFromPartition | src/routes/checkbox-game.tsx:114-126 | the entry built for an owner has the display name, score = sum of the group scores, positive group sizes with their scores, and sizes summing to the owner's checked boxes |
| Scoring.CalculateStats | src/routes/checkbox-game.tsx:110-133 | total_checked counts every checked box, owned or not. The entries follow the owners of the connected-component partition (returned as a ghost result with every FindConnectedComponents property), in its key order, one per owner of a counted box. Each entry's groups are the scored components of its owner, and the entry meets EntryHolds |
| CheckboxMerge.LastIndexWith | src/routes/checkbox-game.tsx:208-210 | the index of the last element with the id, or -1 when no element has it |
| CheckboxMerge.Present | src/routes/checkbox-game.tsx:218-219 | exactly the pending states that are present |
| CheckboxMerge.PutAllAt | src/routes/checkbox-game.tsx:208-210 | after the fold an id holds the last element with that id, otherwise what it held before |
| CheckboxMerge.OverlayMeaning | src/routes/checkbox-game.tsx:205-223 | the merged ids are those that are synced or pending; each entry carries its own id; the last pending state wins, otherwise the last synced row |
| CheckboxMerge.BuildCheckboxMap | src/routes/checkbox-game.tsx:205-223 | the map built by the two forEach loops is the overlay of the pending states on the synced rows |
| CheckboxMerge.InsertById | src/routes/checkbox-game.tsx:227 | inserting a new id into an id-sorted list keeps it sorted and adds exactly that element |
| CheckboxMerge.SortById | src/routes/checkbox-game.tsx:227 | a permutation of the input, strictly ascending by id |
| CheckboxMerge.KeyedValues | src/routes/checkbox-game.tsx:225 | the values of an id-keyed map have distinct ids, and each is exactly the entry filed under its id |
| CheckboxMerge.MergeCheckboxes | src/routes/checkbox-game.tsx:205-227 | the merged list is strictly sorted by id and holds exactly the overlay's entries, one per id |
| CheckboxMerge.PendingToggleShows | src/routes/checkbox-game.tsx:218-223 | the latest pending state for an id is what the merged list shows for it |
| CheckboxMerge.Toggle | src/routes/checkbox-game.tsx:300-308 | id and created_at are kept and updated_at is the time given; the box is unchecked exactly when it was checked by this user; checked boxes belong to this user, unchecked ones to nobody |
| CheckboxMerge.OnMutate | src/routes/checkbox-game.tsx:295-309 | a new state exists iff there is a user and a box with the id; it is the toggle of that box |
| CheckboxMerge.ToggleTwice | src/routes/checkbox-game.tsx:300-302 | toggling twice restores the box, up to updated_at, exactly when it started checked by this user or unchecked with no owner |
| CheckboxMerge.ToggleOwnership | src/routes/checkbox-game.tsx:300-302 | after a toggle the box is either counted for this user or unchecked with no owner |
| Avatar.CodeUnits | src/components/avatar.tsx:12 | every unit lies in [0, 65536); there are at least as many units as characters; for a string with no astral characters the units are the character codes |
| Avatar.ToInt32 | src/components/avatar.tsx:13 | the result is in [-2³¹, 2³¹) and congruent to the input mod 2³² |
| Avatar.ShiftLeft5 | src/components/avatar.tsx:13 | `acc << 5` is in the int32 range and congruent to 32·acc mod 2³² |
| Avatar.HashIsPoly31Mod32 | src/components/avatar.tsx:11-15 | the hash is congruent mod 2³² to the polynomial Σ unitᵢ·31^(n−1−i) |
| Avatar.HashBounded | src/components/avatar.tsx:11-15 | \|hash\| ≤ units · 0x80010000, which stays exact in double precision for short strings |
| Avatar.SingleCharHash | src/components/avatar.tsx:11-15 | a one-unit string hashes to its code |
| Avatar.ColorForUuid | src/components/avatar.tsx:18-21 | the colour is a palette entry, at index \|hash\| mod 10 |
| Avatar.EmptyUuidColor | src/components/avatar.tsx:5-21 | the empty id hashes to 0 and gets "#1f77b4" |
| Avatar.SizeInPx | src/components/avatar.tsx:48-53 | xs 20, sm 24, md 32, lg 40; a number passes through; the default is md |
| Avatar.FontSize | src/components/avatar.tsx:55 | at least 8; equals floor(px/2) from 16 px up; it is clamped exactly when px < 16 |
| Avatar.FontSizeOfEven | src/components/avatar.tsx:55 | for an even px ≥ 16 the font is exactly half the size |
| Poller.OptimisticVote | src/routes/visual-poller.tsx:136-147 | the vote carries the poll, the user, created_at = now, and the id "optimistic-" followed by the time |
| Poller.TotalVotes | src/routes/visual-poller.tsx:157-159 | the total is at least the number of synced votes |
| Poller.TotalVotesIsGroupedTotal | src/routes/visual-poller.tsx:157-169 | the total is the sum of the per-poll list lengths plus the pending vote mutations |
| Poller.VotesOf | src/routes/visual-poller.tsx:162-169 | exactly the votes of the poll, as many as the poll's votes in the input |
| Poller.GroupStep | src/routes/visual-poller.tsx:164-167 | appending a vote to its poll's list keeps the grouping of the prefix |
| Poller.VotesByPoll | src/routes/visual-poller.tsx:162-169 | the map's keys are exactly the polls voted on, and each list is that poll's votes in input order |
| Poller.GroupedTotal | src/routes/visual-poller.tsx:162-169 | the list lengths sum to the number of votes |
| Poller.VotesByUser | src/routes/visual-poller.tsx:251-257 | the keys are exactly the voters; each count is the user's number of votes and is at least 1 |
| Poller.VotesByUserTotal | src/routes/visual-poller.tsx:251-257 | the counts sum to the number of votes |
| Poller.KeyedMeaning | src/routes/visual-poller.tsx:175-180 | the map of real votes has one key per distinct vote id; each entry is a vote of the input filed under its own id |
| Poller.FirstRecent | src/routes/visual-poller.tsx:186-192 | the index of the first recent same-poll, same-user match, or -1 when none is recent |
| Poller.Reconcile | src/routes/visual-poller.tsx:186-200 | one reconcile step grows the map by at most one entry |
| Poller.ReconcileCases | src/routes/visual-poller.tsx:186-200 | with no recent match the vote is set under its own id; otherwise it is set under the id field of the first recent match in insertion order |
| Poller.ReconcileValues | src/routes/visual-poller.tsx:194-200 | after a reconcile step the vote is shown, and every other value shown was shown before |
| Poller.ApplyOptimistic | src/routes/visual-poller.tsx:183-202 | the size grows by at most the number of the poll's pending votes |
| Poller.ApplyOptimisticValues | src/routes/visual-poller.tsx:183-202 | every value is a real one or a pending vote of this poll |
| Poller.NoOptimisticIsIdentity | src/routes/visual-poller.tsx:183-184 | without pending votes for the poll, the real-vote map is unchanged |
| Poller.GetVotesForPoll | src/routes/visual-poller.tsx:172-205 | the method's result is the values of the real votes keyed by id, after the poll's pending votes are reconciled in order |
| Poller.ForPollOnlyThisPoll | src/routes/visual-poller.tsx:174-196 | every vote returned belongs to the requested poll |
| Poller.ForPollLength | src/routes/visual-poller.tsx:175-204 | the length lies between the number of distinct real ids and that number plus the poll's pending votes |
| Poller.ForPollWithoutOptimistic | src/routes/visual-poller.tsx:174-180 | without pending votes for the poll, the result holds one vote per distinct real id, with the ids in first-occurrence order; each vote is the last real vote with its id |
| Poller.KeyedLast | src/routes/visual-poller.tsx:178-180 | each id of the real-vote map holds the last real vote with that id |
| Poller.KeyedFirstOrder | src/routes/visual-poller.tsx:178-180 | the map's keys come in the order of the ids' first occurrences |
| Poller.KeyedValuesOrder | src/routes/visual-poller.tsx:175-204 | the map's values are, in first-occurrence order of their ids, the last real vote of each id |
| Poller.KeyedDistinct | src/routes/visual-poller.tsx:175-204 | when the real votes have distinct ids, the map's values are exactly the real votes, in order |
| Poller.ForPollDistinct | src/routes/visual-poller.tsx:172-205 | with distinct real ids and no pending vote for the poll, the result is the poll's real votes unchanged |
| Poller.LatestOptimisticShown | src/routes/visual-poller.tsx:183-204 | the latest pending vote for the poll is always shown |
| Poller.RepeatedMergeAppends | src/routes/visual-poller.tsx:186-196 | two recent optimistic votes from the same user over one real vote show both votes, not just the latest |
| Todos.InitialState | src/routes/todos.tsx:15-20 | three todos and an empty input |
| Todos.InitialDistinct | src/routes/todos.tsx:15-19 | the initial ids are distinct |
| Todos.ToggleTodo | src/routes/todos.tsx:22-26 | same length, ids and texts; completed flips exactly on the todos with the id |
| Todos.ToggleTwice | src/routes/todos.tsx:22-26 | toggling an id twice restores the list |
| Todos.ToggleOthersUnchanged | src/routes/todos.tsx:22-26 | todos with another id are unchanged |
| Todos.TrimEmptyIff | src/routes/todos.tsx:30 | the trimmed text is empty iff every character is JavaScript white space |
| Todos.TrimKeepsFirstVisible | src/routes/todos.tsx:30 | text with a visible character does not trim to empty |
| Todos.MaxId | src/routes/todos.tsx:35 | the maximum is one of the ids and at least every id |
| Todos.AddTodo | src/routes/todos.tsx:28-41 | blank input leaves the state unchanged; otherwise one todo is appended with the untrimmed text, not completed, with id max + 1, above every existing id, and the input is reset |
| Todos.AddKeepsDistinct | src/routes/todos.tsx:35 | distinct ids stay distinct after an add |
| Todos.AddToInitial | src/routes/todos.tsx:15-41 | adding to the initial list appends todo 4 with the text |
| Todos.NeverEmpty | src/routes/todos.tsx:22-41 | toggling and adding keep the list non-empty, so addTodo's max is always defined |

## Left out

- Network and sync I/O are not modelled. This covers the ElectricSQL shape streams, `fetch`, the txid-confirmation subscriptions (`waitForTxid`, `seenTxids`), the server routes in src/api.ts and the `toggle_checkbox` SQL function. The model takes the synced rows and the pending mutation contexts as inputs.
- React rendering, memo comparators, the debug `useEffect`, the leaderboard's display sorts and `localStorage` are not modelled. The current user is an `Option<string>` parameter.
- The clock is not modelled: `Date.now()` and `new Date().toISOString()` are parameters (integer milliseconds, and the ISO text). `Date.now()` inside `getVotesForPoll`'s `find` is taken as one value for the whole call. A missing `created_at` never matches, like the NaN comparison.
- Scoring.GroupScore: uses the exact integer root. The source's `Math.floor(Math.pow(size, 1.5))` is taken to be exact for board sizes (up to 1000).
- Avatar.HashUnits: the fold is computed on unbounded integers. JavaScript doubles agree while the accumulator stays below 2^53, which `Avatar.HashBounded` guarantees for strings of up to 2^21 code units.
- Avatar.ColorForUuid: modelled once. The two copies in src/components/avatar.tsx and src/routes/checkbox-game.tsx have the same text, so they return the same colour by construction.
- Components.FindConnectedComponents: requires distinct box ids. Its only caller passes the id-keyed merged list. Lists with repeated ids are not covered.
- Scoring.CalculateStats: requires distinct box ids, for the same reason.
- Todos.AddTodo: requires a non-empty list. `Math.max()` of no ids is -Infinity. The list starts with three todos and no operation removes one (`Todos.NeverEmpty`).
- CheckboxMerge.MergeCheckboxes: the pending list holds only the contexts of pending checkbox toggles, each a full record, so the spread `{ ...old, ...pending }` equals the pending state. For these contexts the `Object.keys(obj).length > 0` filter always passes, so it is left out. The source's `useMutationState` filters on `status: 'pending'` only, with no mutation key. Contexts of other pending mutations are not modelled, for example the `{ optimisticVote }` of a pending poll vote, which would add an entry under the key `undefined` that survives the filter.
- The users map of `calculateStats` is a parameter of type `map<string, string>` from id to name.
- Avatar.SizeInPx: numeric sizes are integers (`Pixels(px: int)`). The source type `number` also admits fractional sizes, which pass through unrounded and give a fractional width. These are not modelled.
- Avatar.FontSize: defined on integer pixel sizes only, so `Math.floor` of a fractional half and NaN sizes are not modelled. A size string outside the four names is excluded by the types.
