/**
  The participant collections of `logic/user.rs` (`UserCollection`) and `logic/agent.rs`
  (`AgentCollection`). Both are a list of participants with an id and a remembered view of the
  locker, differing only in what the view is: users remember a snapshot index, agents a whole
  locker. One generic collection models both.
 */
module Participants {

  import opened Wrappers
  import opened Seqs
  import Lockers

  /** A participant: its id and what it has in mind. */
  datatype Participant<M> = Participant(id: nat, inMind: M)

  /** `User { id, inmind_locker_state_idx }`. */
  type User = Participant<nat>

  /** `Agent { id, inmind_locker }`. */
  type Agent = Participant<Lockers.Locker>

  /** No two participants share an id. */
  predicate DistinctIds<M>(c: seq<Participant<M>>) {
    forall a, b :: 0 <= a < b < |c| ==> c[a].id != c[b].id
  }

  /** Some participant has this id. */
  predicate HasId<M>(c: seq<Participant<M>>, id: nat) {
    exists k :: 0 <= k < |c| && c[k].id == id
  }

  /** `UserCollection::new(n, idx)` / `AgentCollection::new(n, locker)`: participants 0..n-1 in order, each with the same view. */
  function New<M>(n: nat, inMind: M): (c: seq<Participant<M>>)
    ensures |c| == n
    ensures forall k :: 0 <= k < n ==> c[k].id == k && c[k].inMind == inMind
    ensures DistinctIds(c)
  {
    seq(n, (k: nat) => Participant(k, inMind))
  }

  /** `remove_by_id(id)` (`Vec::retain` with `p.id != id`): drops every participant with that id. */
  function RemoveById<M>(c: seq<Participant<M>>, id: nat): (r: seq<Participant<M>>)
    ensures |r| <= |c|
    ensures forall k :: 0 <= k < |r| ==> r[k] in c && r[k].id != id
    ensures forall k :: 0 <= k < |c| && c[k].id != id ==> c[k] in r
    ensures !HasId(c, id) ==> r == c
  {
    if |c| == 0 then []
    else (if c[0].id == id then [] else [c[0]]) + RemoveById(c[1..], id)
  }

  /** Removal works piece by piece, so the participants that stay keep their relative order. */
  lemma {:induction false} RemoveByIdKeepsOrder<M>(a: seq<Participant<M>>, b: seq<Participant<M>>, id: nat)
    ensures RemoveById(a + b, id) == RemoveById(a, id) + RemoveById(b, id)
  {
    if |a| > 0 {
      var head := if a[0].id == id then [] else [a[0]];
      assert (a + b)[0] == a[0] && (a + b)[1..] == a[1..] + b;
      calc {
        RemoveById(a + b, id);
        head + RemoveById(a[1..] + b, id);
        { RemoveByIdKeepsOrder(a[1..], b, id); }
        head + (RemoveById(a[1..], id) + RemoveById(b, id));
        (head + RemoveById(a[1..], id)) + RemoveById(b, id);
        RemoveById(a, id) + RemoveById(b, id);
      }
    } else {
      assert a + b == b;
    }
  }

  /** Putting a participant in front of a collection that lacks its id keeps ids distinct. */
  lemma ConsKeepsDistinct<M>(p: Participant<M>, t: seq<Participant<M>>)
    requires DistinctIds(t)
    requires forall k :: 0 <= k < |t| ==> t[k].id != p.id
    ensures DistinctIds([p] + t)
  {
    var r := [p] + t;
    forall a, b | 0 <= a < b < |r|
      ensures r[a].id != r[b].id
    {
      assert r[b] == t[b - 1];
      if a > 0 {
        assert r[a] == t[a - 1];
      }
    }
  }

  /** Removal never makes two participants share an id. */
  lemma {:induction false} RemoveByIdKeepsDistinct<M>(c: seq<Participant<M>>, id: nat)
    requires DistinctIds(c)
    ensures DistinctIds(RemoveById(c, id))
  {
    if |c| > 0 {
      var tail := RemoveById(c[1..], id);
      assert DistinctIds(c[1..]);
      RemoveByIdKeepsDistinct(c[1..], id);
      if c[0].id == id {
        assert RemoveById(c, id) == tail;
      } else {
        forall k | 0 <= k < |tail|
          ensures tail[k].id != c[0].id
        {
          var m :| 0 <= m < |c[1..]| && c[1..][m] == tail[k];
          assert c[m + 1] == tail[k];
        }
        ConsKeepsDistinct(c[0], tail);
      }
    }
  }

  /** `get_mut_by_id(id)`: the position of the first participant with that id (what the returned reference points at), or None. */
  function GetById<M>(c: seq<Participant<M>>, id: nat): (r: Option<nat>)
    ensures r.Some? <==> HasId(c, id)
    ensures r.Some? ==> r.value < |c| && c[r.value].id == id
    ensures r.Some? ==> forall k :: 0 <= k < r.value ==> c[k].id != id
  {
    Position(c, (p: Participant<M>) => p.id == id)
  }

  /** `is_empty()`: the collection is empty exactly when no id can be found in it. */
  function IsEmpty<M>(c: seq<Participant<M>>): (r: bool)
    ensures r <==> |c| == 0
    ensures r <==> forall id :: GetById(c, id).None?
  {
    assert |c| > 0 ==> GetById(c, c[0].id).Some?;
    |c| == 0
  }

  /** In a fresh collection, id k is found at position k exactly when k < n. */
  lemma NewFindsEachId<M>(n: nat, inMind: M, id: nat)
    ensures GetById(New(n, inMind), id) == if id < n then Some(id) else None
  {
    var c := New(n, inMind);
    if id < n {
      assert c[id].id == id;
    }
  }

  /** Removing the ids of a list one after another. */
  function RemoveEach<M>(c: seq<Participant<M>>, ids: seq<nat>): (r: seq<Participant<M>>)
    ensures forall k :: 0 <= k < |r| ==> r[k] in c && r[k].id !in ids
    ensures forall k :: 0 <= k < |c| && c[k].id !in ids ==> c[k] in r
    decreases |ids|
  {
    if |ids| == 0 then c
    else RemoveEach(RemoveById(c, ids[0]), ids[1..])
  }

  /** Removing every id 0..n-1 once from a fresh collection of n leaves it empty, whatever the order of removal. */
  lemma RemovingEveryIdEmpties<M>(n: nat, inMind: M, ids: seq<nat>)
    requires forall k :: 0 <= k < n ==> k in ids
    ensures IsEmpty(RemoveEach(New(n, inMind), ids))
  {
  }
}
