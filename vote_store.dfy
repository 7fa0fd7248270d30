/**
 * The persistent vote table the vote handler reads and writes through the
 * database client: records `(id, sessionId, pollId, pollOptionId)`, looked up
 * by the unique `(sessionId, pollId)` key, deleted by id and created with an
 * id the store assigns.
 */
module VoteStore {

  import opened Wrappers

  type VoteId = nat

  datatype Vote = Vote(id: VoteId, sessionId: string, pollId: string, pollOptionId: string)

  /** The records, in insertion order, and the id the store gives the next record. */
  datatype Table = Table(votes: seq<Vote>, nextId: VoteId)

  predicate HasKey(v: Vote, sessionId: string, pollId: string)
  {
    v.sessionId == sessionId && v.pollId == pollId
  }

  /** At most one record per `(sessionId, pollId)`. */
  ghost predicate KeysUnique(votes: seq<Vote>)
  {
    forall i, j :: 0 <= i < |votes| && 0 <= j < |votes| && HasKey(votes[j], votes[i].sessionId, votes[i].pollId) ==> i == j
  }

  /** No two records share an id. */
  ghost predicate IdsUnique(votes: seq<Vote>)
  {
    forall i, j :: 0 <= i < |votes| && 0 <= j < |votes| && votes[i].id == votes[j].id ==> i == j
  }

  /** The table's invariant: both unique keys hold and every id is below the next one. */
  ghost predicate Valid(t: Table)
  {
    && KeysUnique(t.votes)
    && IdsUnique(t.votes)
    && forall v :: v in t.votes ==> v.id < t.nextId
  }

  /** The record stored under `(sessionId, pollId)`, if any. */
  function Lookup(votes: seq<Vote>, sessionId: string, pollId: string): (r: Option<Vote>)
    ensures r.Some? ==> r.value in votes && HasKey(r.value, sessionId, pollId)
    ensures r.None? ==> forall v :: v in votes ==> !HasKey(v, sessionId, pollId)
  {
    if votes == [] then None
    else if HasKey(votes[0], sessionId, pollId) then Some(votes[0])
    else Lookup(votes[1..], sessionId, pollId)
  }

  /** The records other than those with id `id`, in their order. */
  function Without(votes: seq<Vote>, id: VoteId): (r: seq<Vote>)
    ensures forall v :: v in r <==> v in votes && v.id != id
  {
    if votes == [] then []
    else if votes[0].id == id then Without(votes[1..], id)
    else [votes[0]] + Without(votes[1..], id)
  }

  /** The records stored under `(sessionId, pollId)`, in their order. */
  function Matching(votes: seq<Vote>, sessionId: string, pollId: string): (r: seq<Vote>)
    ensures forall v :: v in r <==> v in votes && HasKey(v, sessionId, pollId)
  {
    if votes == [] then []
    else if HasKey(votes[0], sessionId, pollId) then [votes[0]] + Matching(votes[1..], sessionId, pollId)
    else Matching(votes[1..], sessionId, pollId)
  }

  /** The table after deleting the record with id `id`. */
  function Remove(t: Table, id: VoteId): Table
  {
    Table(Without(t.votes, id), t.nextId)
  }

  /** The table after creating a record; the store assigns it the next id. */
  function Insert(t: Table, sessionId: string, pollId: string, pollOptionId: string): Table
  {
    Table(t.votes + [Vote(t.nextId, sessionId, pollId, pollOptionId)], t.nextId + 1)
  }

  /** The vote table as a mutable store. */
  class VoteTable {
    var votes: seq<Vote>
    var nextId: VoteId

    function State(): Table
      reads this
    {
      Table(votes, nextId)
    }

    constructor ()
      ensures State() == Table([], 0)
    {
      votes, nextId := [], 0;
    }

    /** Finds the record under the unique key `(sessionId, pollId)`. */
    method FindUnique(sessionId: string, pollId: string) returns (found: Option<Vote>)
      ensures found == Lookup(votes, sessionId, pollId)
    {
      found := Lookup(votes, sessionId, pollId);
    }

    /** Deletes the record with id `id`. */
    method Delete(id: VoteId)
      modifies this
      ensures State() == Remove(old(State()), id)
    {
      votes := Without(votes, id);
    }

    /** Creates a record and returns it. */
    method Create(sessionId: string, pollId: string, pollOptionId: string) returns (created: Vote)
      modifies this
      ensures State() == Insert(old(State()), sessionId, pollId, pollOptionId)
      ensures created == Vote(old(nextId), sessionId, pollId, pollOptionId)
    {
      created := Vote(nextId, sessionId, pollId, pollOptionId);
      votes := votes + [created];
      nextId := nextId + 1;
    }
  }

  /** With unique keys, a record stored under the key is the one the lookup finds. */
  lemma LookupFindsTheRecord(votes: seq<Vote>, v: Vote)
    requires KeysUnique(votes)
    requires v in votes
    ensures Lookup(votes, v.sessionId, v.pollId) == Some(v)
  {
    var w := Lookup(votes, v.sessionId, v.pollId).value;
    SameKeySameRecord(votes, v, w);
  }

  /** With unique keys, two records with the same key are the same record. */
  lemma SameKeySameRecord(votes: seq<Vote>, v: Vote, w: Vote)
    requires KeysUnique(votes)
    requires v in votes && w in votes && HasKey(w, v.sessionId, v.pollId)
    ensures v == w
  {
    var i :| 0 <= i < |votes| && votes[i] == v;
    var j :| 0 <= j < |votes| && votes[j] == w;
  }

  /** With unique ids, two records with the same id are the same record. */
  lemma SameIdSameRecord(votes: seq<Vote>, v: Vote, w: Vote)
    requires IdsUnique(votes)
    requires v in votes && w in votes && v.id == w.id
    ensures v == w
  {
    var i :| 0 <= i < |votes| && votes[i] == v;
    var j :| 0 <= j < |votes| && votes[j] == w;
  }

  /** Selecting by key distributes over concatenation. */
  lemma {:induction false} MatchingAppend(a: seq<Vote>, b: seq<Vote>, sessionId: string, pollId: string)
    ensures Matching(a + b, sessionId, pollId) == Matching(a, sessionId, pollId) + Matching(b, sessionId, pollId)
  {
    if a != [] {
      assert (a + b)[0] == a[0] && (a + b)[1..] == a[1..] + b;
      MatchingAppend(a[1..], b, sessionId, pollId);
    } else {
      assert a + b == b;
    }
  }

  /** A key no record carries selects nothing. */
  lemma {:induction false} MatchingAbsent(votes: seq<Vote>, sessionId: string, pollId: string)
    requires forall v :: v in votes ==> !HasKey(v, sessionId, pollId)
    ensures Matching(votes, sessionId, pollId) == []
  {
    if votes != [] {
      assert votes[0] in votes;
      MatchingAbsent(votes[1..], sessionId, pollId);
    }
  }

  /** Prepending a record whose key and id are new keeps both unique keys. */
  lemma ConsKeepsUnique(x: Vote, r: seq<Vote>)
    requires KeysUnique(r) && IdsUnique(r)
    requires forall w :: w in r ==> !HasKey(w, x.sessionId, x.pollId) && w.id != x.id
    ensures KeysUnique([x] + r) && IdsUnique([x] + r)
  {
    var s := [x] + r;
    assert forall k :: 0 < k < |s| ==> s[k] == r[k - 1] && s[k] in r;
  }

  /** Deleting by id keeps both unique keys. */
  lemma {:induction false} WithoutKeepsUnique(votes: seq<Vote>, id: VoteId)
    requires KeysUnique(votes) && IdsUnique(votes)
    ensures KeysUnique(Without(votes, id)) && IdsUnique(Without(votes, id))
  {
    if votes != [] {
      var rest := votes[1..];
      assert KeysUnique(rest) && IdsUnique(rest) by {
        forall i, j | 0 <= i < |rest| && 0 <= j < |rest| && HasKey(rest[j], rest[i].sessionId, rest[i].pollId)
          ensures i == j
        {
          assert rest[i] == votes[i + 1] && rest[j] == votes[j + 1];
        }
        forall i, j | 0 <= i < |rest| && 0 <= j < |rest| && rest[i].id == rest[j].id
          ensures i == j
        {
          assert rest[i] == votes[i + 1] && rest[j] == votes[j + 1];
        }
      }
      WithoutKeepsUnique(rest, id);
      if votes[0].id != id {
        forall w | w in Without(rest, id)
          ensures !HasKey(w, votes[0].sessionId, votes[0].pollId) && w.id != votes[0].id
        {
          var k :| 0 <= k < |rest| && rest[k] == w;
          assert votes[k + 1] == w;
        }
        ConsKeepsUnique(votes[0], Without(rest, id));
      }
    }
  }

  /** Appending a record whose key and id are new keeps both unique keys. */
  lemma SnocKeepsUnique(votes: seq<Vote>, x: Vote)
    requires KeysUnique(votes) && IdsUnique(votes)
    requires forall w :: w in votes ==> !HasKey(w, x.sessionId, x.pollId) && w.id != x.id
    ensures KeysUnique(votes + [x]) && IdsUnique(votes + [x])
  {
    var s := votes + [x];
    assert forall k :: 0 <= k < |votes| ==> s[k] == votes[k] && s[k] in votes;
  }

  /** Deleting keeps the table's invariant. */
  lemma RemoveKeepsValid(t: Table, id: VoteId)
    requires Valid(t)
    ensures Valid(Remove(t, id))
  {
    WithoutKeepsUnique(t.votes, id);
  }

  /** Creating a record under a key no record carries keeps the table's invariant. */
  lemma InsertKeepsValid(t: Table, sessionId: string, pollId: string, pollOptionId: string)
    requires Valid(t)
    requires forall v :: v in t.votes ==> !HasKey(v, sessionId, pollId)
    ensures Valid(Insert(t, sessionId, pollId, pollOptionId))
  {
    SnocKeepsUnique(t.votes, Vote(t.nextId, sessionId, pollId, pollOptionId));
  }
}
