/**
 The favourites widget: a table from donut id to vote record, loaded from the
 browser's storage key at page load, completed with default records for the
 catalog, toggled in place by the star button and written back to storage
 after every toggle.
 */
module Votes {
  import Catalog

  /** The stored `userVote`: 'up', the legacy 'down', or null. */
  datatype UserVote = Up | Down | None

  /** One item's record: its favourite count and the current user's vote. */
  datatype VoteRecord = VoteRecord(score: int, userVote: UserVote)

  /**
   What the storage key holds. `Absent` is a missing key, or a payload that
   parses to a falsy value (the `|| {}` fallback); `Unparseable` is a payload
   the JSON parser rejects; `Saved` is a serialized vote table.
   */
  datatype Stored = Absent | Unparseable | Saved(table: map<string, VoteRecord>)

  datatype LoadError = SyntaxError

  datatype Result<T> = Ok(value: T) | Err(error: LoadError)

  /** The record given to a catalog item the loaded table does not mention. */
  const Default := VoteRecord(0, None)

  /** Whether the item's star button shows as active. */
  predicate IsFavourite(r: VoteRecord)
  {
    r.userVote == Up
  }

  /** How much the current user's own vote adds to the score. */
  function Contribution(v: UserVote): int
  {
    match v
    case Up => 1
    case None => 0
    case Down => -1
  }

  /** The score with the current user's own vote taken out. */
  function OthersScore(r: VoteRecord): int
  {
    r.score - Contribution(r.userVote)
  }

  /** Reading the storage key: parse the payload, or fail as the parser does. */
  function Load(s: Stored): Result<map<string, VoteRecord>>
  {
    match s
    case Absent => Ok(map[])
    case Unparseable => Err(SyntaxError)
    case Saved(t) => Ok(t)
  }

  /**
   The table after the initialisation pass over `ids`: each id the table
   lacks gets the default record, in order.
   */
  function Merge(m: map<string, VoteRecord>, ids: seq<string>): (r: map<string, VoteRecord>)
    ensures r.Keys == m.Keys + set id | id in ids
    ensures forall k :: k in m ==> r[k] == m[k]
    ensures forall k :: k in r && k !in m ==> r[k] == Default
    decreases |ids|
  {
    if ids == [] then m
    else
      var id := ids[0];
      Merge(if id in m then m else m[id := Default], ids[1..])
  }

  /** Every catalog item has a record. */
  ghost predicate Covers(m: map<string, VoteRecord>, catalog: seq<string>)
  {
    forall id :: id in catalog ==> id in m
  }

  /** Initialisation gives every catalog id a record and keeps every loaded record. */
  lemma MergeCovers(m: map<string, VoteRecord>, catalog: seq<string>)
    ensures Covers(Merge(m, catalog), catalog)
    ensures forall k :: k in m ==> Merge(m, catalog)[k] == m[k]
  {
  }

  /** With nothing in storage, every catalog item starts at score 0 with no vote, and nothing else is present. */
  lemma MergeEmpty(catalog: seq<string>)
    ensures Merge(map[], catalog).Keys == set id | id in catalog
    ensures forall id :: id in catalog ==> Merge(map[], catalog)[id] == Default
  {
  }

  /** Re-initialising from a table that already covers the catalog gives back that very table. */
  lemma ReloadRestores(m: map<string, VoteRecord>, catalog: seq<string>)
    requires Covers(m, catalog)
    ensures Merge(m, catalog) == m
  {
  }

  /**
   One press of the star button on a record. Afterwards the user's vote is
   never the legacy 'down', the favourite state has flipped, and the score
   without the user's own vote is unchanged (so leaving 'up' costs 1, reaching
   'up' from no vote adds 1 and from a legacy 'down' adds 2).
   */
  function Toggled(rec: VoteRecord): (r: VoteRecord)
    ensures r.userVote != Down
    ensures IsFavourite(r) <==> !IsFavourite(rec)
    ensures OthersScore(r) == OthersScore(rec)
  {
    if rec.userVote == Up then VoteRecord(rec.score - 1, None)
    else VoteRecord(rec.score + (if rec.userVote == Down then 2 else 1), Up)
  }

  /** The score change of one toggle, case by case. */
  lemma ToggleScoreChange(rec: VoteRecord)
    ensures rec.userVote == Up ==> Toggled(rec) == VoteRecord(rec.score - 1, None)
    ensures rec.userVote == None ==> Toggled(rec) == VoteRecord(rec.score + 1, Up)
    ensures rec.userVote == Down ==> Toggled(rec) == VoteRecord(rec.score + 2, Up)
  {
  }

  /** Toggling twice from no vote or from 'up' restores the record. */
  lemma ToggleTwice(rec: VoteRecord)
    requires rec.userVote != Down
    ensures Toggled(Toggled(rec)) == rec
  {
  }

  /** Toggling twice from a legacy 'down' does not come back: it ends one above the start with no vote. */
  lemma ToggleTwiceFromDown(rec: VoteRecord)
    requires rec.userVote == Down
    ensures Toggled(Toggled(rec)) == VoteRecord(rec.score + 1, None)
    ensures Toggled(Toggled(rec)) != rec
  {
  }

  /**
   The store of one page: the in-memory vote table and the storage key it is
   saved under.
   */
  class VoteStore {
    /** The ids of the catalog the store serves. */
    const catalog: seq<string>
    var votes: map<string, VoteRecord>
    var persisted: Stored

    /** Every catalog item has a record. */
    ghost predicate Valid()
      reads this
    {
      Covers(votes, catalog)
    }

    /** Page load: the storage key holds what an earlier visit left there. */
    constructor (stored: Stored)
      ensures catalog == Catalog.Ids()
      ensures votes == map[] && persisted == stored
    {
      catalog := Catalog.Ids();
      votes := map[];
      persisted := stored;
    }

    /**
     Load the table from storage and give each catalog item without a record
     the default one. An unparseable payload aborts, as the parser's exception
     does; nothing is written back to storage either way.
     */
    method Init() returns (ok: bool)
      modifies this
      ensures persisted == old(persisted)
      ensures ok <==> !old(persisted).Unparseable?
      ensures ok ==> votes == Merge(Load(old(persisted)).value, catalog) && Valid()
      ensures !ok ==> votes == old(votes)
    {
      var loaded := Load(persisted);
      if loaded.Err? {
        return false;
      }
      votes := loaded.value;
      var ids := catalog;
      var i := 0;
      while i < |ids|
        invariant 0 <= i <= |ids|
        invariant persisted == old(persisted)
        invariant Merge(votes, ids[i..]) == Merge(loaded.value, ids)
      {
        var id := ids[i];
        ghost var before := votes;
        if id !in votes {
          votes := votes[id := Default];
        }
        assert ids[i..][0] == id && ids[i..][1..] == ids[i + 1..];
        assert Merge(before, ids[i..]) == Merge(votes, ids[i + 1..]);
        i := i + 1;
      }
      assert ids[i..] == [];
      assert votes == Merge(votes, ids[i..]);
      MergeCovers(loaded.value, ids);
      ok := true;
    }

    /**
     The star button's click handler: toggle the record of `id` in place and
     write the whole table back to storage. `active` is the button's new
     highlighted state.
     */
    method Toggle(id: string) returns (active: bool)
      requires id in votes
      modifies this
      ensures votes == old(votes)[id := Toggled(old(votes)[id])]
      ensures persisted == Saved(votes)
      ensures active <==> IsFavourite(votes[id])
      ensures old(Valid()) ==> Valid()
    {
      var currentVote := votes[id].userVote;
      var score := votes[id].score;
      if currentVote == Up {
        score := score - 1;
        votes := votes[id := votes[id].(userVote := None)];
        active := false;
      } else {
        score := score + (if currentVote == Down then 2 else 1);
        votes := votes[id := votes[id].(userVote := Up)];
        active := true;
      }
      votes := votes[id := votes[id].(score := score)];
      persisted := Saved(votes);
    }
  }

  /** After a toggle, a fresh page loading the saved table sees the same table. */
  method ReloadAfterToggle(store: VoteStore, id: string) returns (reloaded: map<string, VoteRecord>)
    requires store.catalog == Catalog.Ids() && store.Valid() && id in store.votes
    modifies store
    ensures store.votes == old(store.votes)[id := Toggled(old(store.votes)[id])]
    ensures store.Valid() && store.persisted == Saved(store.votes)
    ensures reloaded == store.votes
  {
    var _ := store.Toggle(id);
    var next := new VoteStore(store.persisted);
    var ok := next.Init();
    ReloadRestores(store.votes, store.catalog);
    assert ok;
    reloaded := next.votes;
  }

  /** A first visit: empty storage, then one star on "d1". */
  method FirstVisitScenario()
  {
    var store := new VoteStore(Absent);
    var ok := store.Init();
    MergeEmpty(store.catalog);
    assert ok;
    var active := store.Toggle("d1");
    assert active && store.votes["d1"] == VoteRecord(1, Up);
    assert store.votes["d2"] == Default;
  }

  /** A record saved with the legacy 'down' vote gains 2 on its first star. */
  method LegacyDownScenario()
  {
    var store := new VoteStore(Saved(map["d2" := VoteRecord(5, Down)]));
    var ok := store.Init();
    assert ok && store.votes["d2"] == VoteRecord(5, Down);
    var active := store.Toggle("d2");
    assert store.votes["d2"] == VoteRecord(7, Up);
  }

  /** Corrupt storage stops initialisation. */
  method CorruptStorageScenario()
  {
    var store := new VoteStore(Unparseable);
    var ok := store.Init();
    assert !ok && store.votes == map[];
  }
}
