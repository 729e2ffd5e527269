/**
 * The checkbox record of the checkbox game (`CheckboxState` in
 * src/routes/checkbox-game.tsx) and the filters the game applies to a list of them.
 */
module Checkboxes {
  import opened Wrappers

  /** Timestamps are kept as the ISO strings the record carries. */
  datatype Checkbox = Checkbox(
    id: int,
    checked: bool,
    userId: Option<string>,
    createdAt: string,
    updatedAt: string)

  /** `c.user_id` is truthy: neither `null` nor the empty string. */
  predicate HasOwner(c: Checkbox)
  {
    c.userId.Some? && c.userId.value != ""
  }

  /** The boxes that take part in scoring: `c.checked && c.user_id`. */
  predicate Counted(c: Checkbox)
  {
    c.checked && HasOwner(c)
  }

  function Owner(c: Checkbox): string
  {
    if c.userId.Some? then c.userId.value else ""
  }

  ghost predicate DistinctIds(s: seq<Checkbox>)
  {
    forall i, j :: 0 <= i < j < |s| ==> s[i].id != s[j].id
  }

  /** `checkboxes.filter(c => c.checked && c.user_id)`. */
  function CheckedOwned(s: seq<Checkbox>): (r: seq<Checkbox>)
    ensures forall c :: c in r ==> c in s && Counted(c)
    ensures forall c :: c in s && Counted(c) ==> c in r
  {
    if s == [] then []
    else (if Counted(s[0]) then [s[0]] else []) + CheckedOwned(s[1..])
  }

  lemma {:induction false} CheckedOwnedDistinct(s: seq<Checkbox>)
    requires DistinctIds(s)
    ensures DistinctIds(CheckedOwned(s))
  {
    if s != [] {
      var t := s[1..];
      DistinctTail(s);
      CheckedOwnedDistinct(t);
      var rt := CheckedOwned(t);
      var r := CheckedOwned(s);
      if Counted(s[0]) {
        forall j | 0 <= j < |rt| ensures rt[j].id != s[0].id {
          assert rt[j] in t;
          var k :| 0 <= k < |t| && t[k] == rt[j];
          assert t[k] == s[k + 1];
        }
        forall i, j | 0 <= i < j < |r| ensures r[i].id != r[j].id {
          if i > 0 {
            assert r[i] == rt[i - 1] && r[j] == rt[j - 1];
          } else {
            assert r[j] == rt[j - 1];
          }
        }
      } else {
        assert r == rt;
      }
    }
  }

  lemma DistinctTail(s: seq<Checkbox>)
    requires DistinctIds(s) && s != []
    ensures DistinctIds(s[1..])
  {
    var t := s[1..];
    forall i, j | 0 <= i < j < |t| ensures t[i].id != t[j].id {
      assert t[i] == s[i + 1] && t[j] == s[j + 1];
    }
  }

  /** `checkboxes.filter(c => c.checked).length`: ownerless boxes included. */
  function CountChecked(s: seq<Checkbox>): (n: nat)
    ensures n <= |s|
    ensures n == |s| <==> forall c :: c in s ==> c.checked
    ensures n == 0 <==> forall c :: c in s ==> !c.checked
  {
    if s == [] then 0
    else (if s[0].checked then 1 else 0) + CountChecked(s[1..])
  }

  /** How many boxes of s are checked and owned by user o. */
  function CountOwnedBy(s: seq<Checkbox>, o: string): (n: nat)
    ensures n <= |s|
  {
    if s == [] then 0
    else (if Counted(s[0]) && Owner(s[0]) == o then 1 else 0) + CountOwnedBy(s[1..], o)
  }

  /** The owner of each box of s, keyed by id (the earliest box with an id wins). */
  ghost function OwnerIndex(s: seq<Checkbox>): map<int, string>
  {
    if s == [] then map[] else OwnerIndex(s[1..])[s[0].id := Owner(s[0])]
  }

  /** Every box of s is indexed, under its own owner when ids are distinct. */
  lemma {:induction false} OwnerIndexAt(s: seq<Checkbox>, j: int)
    requires 0 <= j < |s|
    ensures s[j].id in OwnerIndex(s)
    ensures DistinctIds(s) ==> OwnerIndex(s)[s[j].id] == Owner(s[j])
  {
    if j > 0 {
      assert s[1..][j - 1] == s[j];
      OwnerIndexAt(s[1..], j - 1);
      if DistinctIds(s) {
        DistinctTail(s);
      }
    }
  }

  /** Only ids of boxes of s are indexed. */
  lemma {:induction false} OwnerIndexHas(s: seq<Checkbox>, id: int)
    requires id in OwnerIndex(s)
    ensures exists j :: 0 <= j < |s| && s[j].id == id
  {
    if s[0].id != id {
      OwnerIndexHas(s[1..], id);
      var j :| 0 <= j < |s[1..]| && s[1..][j].id == id;
      assert s[j + 1].id == id;
    }
  }

  lemma OwnerIndexAll(s: seq<Checkbox>)
    requires DistinctIds(s)
    ensures forall j :: 0 <= j < |s| ==> s[j].id in OwnerIndex(s) && OwnerIndex(s)[s[j].id] == Owner(s[j])
    ensures forall id :: id in OwnerIndex(s) ==> exists j :: 0 <= j < |s| && s[j].id == id
  {
    forall j | 0 <= j < |s| ensures s[j].id in OwnerIndex(s) && OwnerIndex(s)[s[j].id] == Owner(s[j]) {
      OwnerIndexAt(s, j);
    }
    forall id | id in OwnerIndex(s) ensures exists j :: 0 <= j < |s| && s[j].id == id {
      OwnerIndexHas(s, id);
    }
  }

  /** Each checked, owned box's owner, keyed by the box's id. */
  ghost function Owners(s: seq<Checkbox>): map<int, string>
  {
    OwnerIndex(CheckedOwned(s))
  }

  /** The ids owned by user o. */
  ghost function OwnedIds(m: map<int, string>, o: string): set<int>
  {
    set id | id in m && m[id] == o
  }

  /** Owners(s) holds exactly the checked, owned boxes of s with their owners. */
  lemma {:induction false} OwnersMeaning(s: seq<Checkbox>, id: int, o: string)
    requires DistinctIds(s)
    ensures (id in Owners(s) && Owners(s)[id] == o) <==>
            exists c :: c in s && Counted(c) && c.id == id && Owner(c) == o
  {
    var r := CheckedOwned(s);
    var m := OwnerIndex(r);
    CheckedOwnedDistinct(s);
    OwnerIndexAll(r);
    if id in m && m[id] == o {
      var j :| 0 <= j < |r| && r[j].id == id;
      assert r[j] in s && Counted(r[j]) && Owner(r[j]) == o;
    }
    if c :| c in s && Counted(c) && c.id == id && Owner(c) == o {
      assert c in r;
      var j :| 0 <= j < |r| && r[j] == c;
      assert m[r[j].id] == Owner(r[j]);
    }
  }

  /** With distinct ids, user o's number of checked boxes is the number of ids Owners gives o. */
  lemma {:induction false} CountOwnedIsOwnedIds(s: seq<Checkbox>, o: string)
    requires DistinctIds(s)
    ensures CountOwnedBy(s, o) == |OwnedIds(Owners(s), o)|
  {
    CountOwnedFiltered(s, o);
    CheckedOwnedDistinct(s);
    CountOwnedIndex(CheckedOwned(s), o);
  }

  lemma {:induction false} CountOwnedFiltered(s: seq<Checkbox>, o: string)
    ensures CountOwnedBy(s, o) == CountOwnedBy(CheckedOwned(s), o)
  {
    if s != [] {
      CountOwnedFiltered(s[1..], o);
      var head := if Counted(s[0]) then [s[0]] else [];
      CountOwnedAppend(head, CheckedOwned(s[1..]), o);
    }
  }

  lemma {:induction false} CountOwnedAppend(a: seq<Checkbox>, b: seq<Checkbox>, o: string)
    ensures CountOwnedBy(a + b, o) == CountOwnedBy(a, o) + CountOwnedBy(b, o)
  {
    if a != [] {
      assert (a + b)[0] == a[0];
      assert (a + b)[1..] == a[1..] + b;
      CountOwnedAppend(a[1..], b, o);
    } else {
      assert a + b == b;
    }
  }

  lemma {:induction false} CountOwnedIndex(r: seq<Checkbox>, o: string)
    requires DistinctIds(r)
    requires forall c :: c in r ==> Counted(c)
    ensures CountOwnedBy(r, o) == |OwnedIds(OwnerIndex(r), o)|
  {
    if r != [] {
      var t := r[1..];
      DistinctTailIds(r);
      assert forall c :: c in t ==> c in r;
      CountOwnedIndex(t, o);
      OwnerIndexAll(t);
      OwnedIdsAdd(OwnerIndex(t), r[0].id, Owner(r[0]), o);
    }
  }

  /** Indexing one more id adds it to its owner's ids and to nobody else's. */
  lemma OwnedIdsAdd(m: map<int, string>, id: int, owner: string, o: string)
    requires id !in m
    ensures |OwnedIds(m[id := owner], o)| == |OwnedIds(m, o)| + (if owner == o then 1 else 0)
  {
    if owner == o {
      assert OwnedIds(m[id := owner], o) == OwnedIds(m, o) + {id};
    } else {
      assert OwnedIds(m[id := owner], o) == OwnedIds(m, o);
    }
  }

  lemma DistinctTailIds(s: seq<Checkbox>)
    requires DistinctIds(s) && s != []
    ensures DistinctIds(s[1..])
    ensures forall c :: c in s[1..] ==> c.id != s[0].id
  {
    DistinctTail(s);
  }
}
