/**
 * The optimistic overlay of the checkbox game: synced checkbox rows and the
 * states returned by still-pending toggle mutations are merged into one list,
 * keyed by id and sorted by id; and the toggle rule that computes a pending
 * state (src/routes/checkbox-game.tsx, the checkbox map and `onMutate`).
 */
module CheckboxMerge {
  import opened Wrappers
  import opened JsMap
  import opened Checkboxes

  /** The index of the last element of `s` with the given id, or -1. */
  function LastIndexWith(s: seq<Checkbox>, id: int): (i: int)
    ensures -1 <= i < |s|
    ensures i >= 0 ==> s[i].id == id
    ensures forall j :: i < j < |s| ==> s[j].id != id
  {
    if s == [] then -1
    else if s[|s| - 1].id == id then |s| - 1
    else LastIndexWith(s[..|s| - 1], id)
  }

  /** The last element of `s` with the given id, if any. */
  function LastWith(s: seq<Checkbox>, id: int): (r: Option<Checkbox>)
    ensures r.Some? ==> r.value in s && r.value.id == id
    ensures r.None? ==> forall c :: c in s ==> c.id != id
  {
    var i := LastIndexWith(s, id);
    if i < 0 then None else Some(s[i])
  }

  /** The states that pending mutations actually produced, in order. */
  function Present(pending: seq<Option<Checkbox>>): (r: seq<Checkbox>)
    ensures forall c :: c in r <==> Some(c) in pending
  {
    if pending == [] then []
    else
      var rest := Present(pending[..|pending| - 1]);
      assert pending == pending[..|pending| - 1] + [pending[|pending| - 1]];
      match pending[|pending| - 1]
      case None => rest
      case Some(c) => rest + [c]
  }

  /** `s.forEach(c => m.set(c.id, c))` on the map's table. */
  function PutAll(m: map<int, Checkbox>, s: seq<Checkbox>): map<int, Checkbox>
  {
    if s == [] then m else PutAll(m, s[..|s| - 1])[s[|s| - 1].id := s[|s| - 1]]
  }

  /** The merged table: synced rows first, then the present pending states over them. */
  function Overlay(synced: seq<Checkbox>, pending: seq<Option<Checkbox>>): map<int, Checkbox>
  {
    PutAll(PutAll(map[], synced), Present(pending))
  }

  /** After the fold, an id holds the last element with that id, or what it held before. */
  lemma {:induction false} PutAllAt(m: map<int, Checkbox>, s: seq<Checkbox>, id: int)
    ensures id in PutAll(m, s) <==> id in m || LastWith(s, id).Some?
    ensures LastWith(s, id).Some? ==> PutAll(m, s)[id] == LastWith(s, id).value
    ensures LastWith(s, id).None? && id in m ==> PutAll(m, s)[id] == m[id]
  {
    if s != [] {
      PutAllAt(m, s[..|s| - 1], id);
    }
  }

  /**
   * An id is in the merged table exactly when a synced row or a pending state
   * has it; the entry is the last pending state with that id, or, when there
   * is none, the last synced row with it. Every entry carries its own id.
   */
  lemma OverlayMeaning(synced: seq<Checkbox>, pending: seq<Option<Checkbox>>, id: int)
    ensures id in Overlay(synced, pending) <==>
      (exists c :: c in synced && c.id == id) || (exists c :: Some(c) in pending && c.id == id)
    ensures id in Overlay(synced, pending) ==> Overlay(synced, pending)[id].id == id
    ensures LastWith(Present(pending), id).Some? ==>
      Overlay(synced, pending)[id] == LastWith(Present(pending), id).value
    ensures LastWith(Present(pending), id).None? && LastWith(synced, id).Some? ==>
      Overlay(synced, pending)[id] == LastWith(synced, id).value
  {
    var p := Present(pending);
    PutAllAt(map[], synced, id);
    PutAllAt(PutAll(map[], synced), p, id);
    if exists c :: Some(c) in pending && c.id == id {
      var c :| Some(c) in pending && c.id == id;
      assert c in p;
    }
    if exists c :: c in synced && c.id == id {
      var c :| c in synced && c.id == id;
    }
  }

  /** Every entry of the fold is filed under its own id. */
  lemma {:induction false} PutAllKeyed(m: map<int, Checkbox>, s: seq<Checkbox>)
    requires forall k :: k in m ==> m[k].id == k
    ensures forall k :: k in PutAll(m, s) ==> PutAll(m, s)[k].id == k
  {
    if s != [] {
      PutAllKeyed(m, s[..|s| - 1]);
    }
  }

  /** `checkboxMap`: the JS Map built by the two `forEach` loops. */
  method BuildCheckboxMap(synced: seq<Checkbox>, pending: seq<Option<Checkbox>>)
    returns (checkboxMap: OrderedMap<int, Checkbox>)
    ensures checkboxMap.Valid()
    ensures checkboxMap.table == Overlay(synced, pending)
  {
    checkboxMap := Empty();
    for k := 0 to |synced|
      invariant checkboxMap.Valid()
      invariant checkboxMap.table == PutAll(map[], synced[..k])
    {
      assert synced[..k + 1][..k] == synced[..k];
      checkboxMap := checkboxMap.Set(synced[k].id, synced[k]);
    }
    assert synced[..|synced|] == synced;
    ghost var base := checkboxMap.table;
    ghost var present: seq<Checkbox> := [];
    for k := 0 to |pending|
      invariant checkboxMap.Valid()
      invariant present == Present(pending[..k])
      invariant checkboxMap.table == PutAll(base, present)
    {
      assert pending[..k + 1][..k] == pending[..k];
      if pending[k].Some? {
        var checkbox := pending[k].value;
        // `{ ...checkboxMap.get(id), ...checkbox }`: every field comes from the pending state.
        checkboxMap := checkboxMap.Set(checkbox.id, checkbox);
        present := present + [checkbox];
      }
    }
    assert pending[..|pending|] == pending;
  }

  predicate SortedById(s: seq<Checkbox>)
  {
    forall i, j :: 0 <= i < j < |s| ==> s[i].id < s[j].id
  }

  /** Where a box with the given id goes in an id-sorted list: after every smaller id. */
  function Position(id: int, s: seq<Checkbox>): (k: nat)
    requires SortedById(s)
    ensures k <= |s|
    ensures forall i :: 0 <= i < k ==> s[i].id < id
    ensures forall i :: k <= i < |s| ==> id <= s[i].id
  {
    if s == [] || id <= s[0].id then 0 else Position(id, s[1..]) + 1
  }

  /** Insert into an id-sorted list a box whose id the list does not hold. */
  function InsertById(x: Checkbox, s: seq<Checkbox>): (r: seq<Checkbox>)
    requires SortedById(s) && forall c :: c in s ==> c.id != x.id
    ensures SortedById(r)
    ensures multiset(r) == multiset(s) + multiset{x}
  {
    var k := Position(x.id, s);
    InsertSorted(x, s, k);
    assert s == s[..k] + s[k..];
    s[..k] + [x] + s[k..]
  }

  lemma InsertSorted(x: Checkbox, s: seq<Checkbox>, k: nat)
    requires SortedById(s) && forall c :: c in s ==> c.id != x.id
    requires k <= |s| && (forall i :: 0 <= i < k ==> s[i].id < x.id) && (forall i :: k <= i < |s| ==> x.id <= s[i].id)
    ensures SortedById(s[..k] + [x] + s[k..])
  {
    var r := s[..k] + [x] + s[k..];
    forall i | k <= i < |s| ensures x.id < s[i].id {
      assert s[i] in s;
    }
    forall i, j | 0 <= i < j < |r| ensures r[i].id < r[j].id {
      if j < k {
        assert r[i] == s[i] && r[j] == s[j];
      } else if j == k {
        assert r[i] == s[i];
      } else if i < k {
        assert r[i] == s[i] && r[j] == s[j - 1];
      } else if i == k {
        assert r[j] == s[j - 1];
      } else {
        assert r[i] == s[i - 1] && r[j] == s[j - 1];
      }
    }
  }

  /** `.sort((a, b) => a.id - b.id)` on boxes with distinct ids. */
  function SortById(s: seq<Checkbox>): (r: seq<Checkbox>)
    requires DistinctIds(s)
    ensures SortedById(r)
    ensures multiset(r) == multiset(s)
    ensures forall c :: c in r <==> c in s
  {
    if s == [] then []
    else
      DistinctTailIds(s);
      assert s == [s[0]] + s[1..];
      var t := SortById(s[1..]);
      InsertById(s[0], t)
  }

  /**
   * `mergedCheckboxes`: exactly the merged table's entries, one per id, in
   * ascending id order. (The `Object.keys(obj).length > 0` filter keeps
   * every entry here, since every entry is a whole record.)
   */
  method MergeCheckboxes(synced: seq<Checkbox>, pending: seq<Option<Checkbox>>)
    returns (merged: seq<Checkbox>)
    ensures SortedById(merged)
    ensures forall c :: c in merged <==> c.id in Overlay(synced, pending) && Overlay(synced, pending)[c.id] == c
    ensures |merged| == |Overlay(synced, pending)|
  {
    var checkboxMap := BuildCheckboxMap(synced, pending);
    PutAllKeyed(map[], synced);
    PutAllKeyed(PutAll(map[], synced), Present(pending));
    KeyedValues(checkboxMap);
    merged := SortById(checkboxMap.Values());
    assert |multiset(merged)| == |multiset(checkboxMap.Values())|;
  }

  /** The values of a map that files each box under its own id have distinct ids, one per entry. */
  lemma KeyedValues(m: OrderedMap<int, Checkbox>)
    requires m.Valid() && forall k :: k in m.table ==> m.table[k].id == k
    ensures DistinctIds(m.Values())
    ensures forall c :: c in m.Values() <==> c.id in m.table && m.table[c.id] == c
    ensures |m.Values()| == |m.table|
  {
    var values, table := m.Values(), m.table;
    forall i, j | 0 <= i < j < |values| ensures values[i].id != values[j].id {
      var ki, kj := m.keys[i], m.keys[j];
      assert ki in table && kj in table && ki != kj;
      assert values[i] == table[ki] && values[j] == table[kj];
    }
    forall c ensures c in values <==> c.id in table && table[c.id] == c {
      if c.id in table && table[c.id] == c {
        var i :| 0 <= i < |m.keys| && m.keys[i] == c.id;
        assert values[i] == c;
      }
      if c in values {
        var i :| 0 <= i < |values| && values[i] == c;
        assert m.keys[i] in table && table[m.keys[i]].id == m.keys[i];
      }
    }
    SizeIsKeyCount(m);
  }

  /**
   * The `onMutate` toggle rule: a box checked by the current user is released
   * (unchecked, no owner); any other box becomes checked and owned by the
   * current user. Every other field is kept, and `updated_at` is the time of
   * the toggle.
   */
  function Toggle(c: Checkbox, user: string, now: string): (r: Checkbox)
    ensures r.id == c.id && r.createdAt == c.createdAt && r.updatedAt == now
    ensures r.checked <==> !(c.checked && c.userId == Some(user))
    ensures r.userId == (if r.checked then Some(user) else None)
  {
    if c.checked && c.userId == Some(user) then c.(checked := false, userId := None, updatedAt := now)
    else c.(checked := true, userId := Some(user), updatedAt := now)
  }

  /** The index of `mergedCheckboxes.find(c => c.id === id)`, or -1. */
  function FirstIndexWith(s: seq<Checkbox>, id: int): (i: int)
    ensures -1 <= i < |s|
    ensures i >= 0 ==> s[i].id == id
    ensures forall j :: 0 <= j < |s| && (i < 0 || j < i) ==> s[j].id != id
  {
    if s == [] then -1
    else if s[0].id == id then 0
    else
      var i := FirstIndexWith(s[1..], id);
      if i < 0 then -1 else i + 1
  }

  /**
   * `onMutate(id)`: no optimistic state when the box is not in the merged
   * list or nobody is signed in; otherwise the toggled box.
   */
  function OnMutate(merged: seq<Checkbox>, id: int, user: Option<string>, now: string): (r: Option<Checkbox>)
    ensures r.Some? <==> user.Some? && exists c :: c in merged && c.id == id
    ensures r.Some? ==> exists c :: c in merged && c.id == id && r.value == Toggle(c, user.value, now)
  {
    var i := FirstIndexWith(merged, id);
    if i < 0 || user.None? then None else Some(Toggle(merged[i], user.value, now))
  }

  /**
   * Toggling twice restores a box (up to `updated_at`) exactly when it started
   * free and unchecked, or checked by the same user; a box held by someone
   * else is first taken over and then released.
   */
  lemma ToggleTwice(c: Checkbox, user: string, t1: string, t2: string)
    ensures Toggle(Toggle(c, user, t1), user, t2) == c.(updatedAt := t2) <==>
      (c.checked && c.userId == Some(user)) || (!c.checked && c.userId == None)
  {
  }

  /** A toggle leaves the box counted for the user, or unchecked and free. */
  lemma ToggleOwnership(c: Checkbox, user: string, now: string)
    requires user != ""
    ensures var r := Toggle(c, user, now);
      (Counted(r) && Owner(r) == user) || (!r.checked && !HasOwner(r))
  {
  }

  /** Once the toggle of a box is pending, the merged list shows the toggled state. */
  lemma PendingToggleShows(synced: seq<Checkbox>, pending: seq<Option<Checkbox>>, t: Checkbox)
    requires |pending| > 0 && pending[|pending| - 1] == Some(t)
    ensures t.id in Overlay(synced, pending) && Overlay(synced, pending)[t.id] == t
  {
    var p := Present(pending);
    assert Present(pending) == Present(pending[..|pending| - 1]) + [t];
    OverlayMeaning(synced, pending, t.id);
    assert Some(t) in pending;
  }
}
