/** The PostgreSQL spot repository, over in-memory tables. Each statement's effect is the function
    of `SpotTables` that states its meaning; a failing connection is the `fault` field, which
    every statement returns as its error. */
module SpotRepository {
  import opened Wrappers
  import opened ValueObjects
  import opened MeshIds
  import opened SpotTables

  /** A user whose posts share meshes with the requester's, and how many meshes they share. */
  datatype ResonantUser = ResonantUser(id: ID, matchCount: int)

  /** The error `database/sql` returns when `QueryRow` finds no row. */
  const ErrNoRows: Error := Error("sql: no rows in result set")

  /** What the schema guarantees: unique mesh_id and id, ids handed out by a sequence that is
      ahead of every stored id, and user ids that are themselves serial ids. */
  predicate ValidTables(spots: seq<SpotRow>, posts: seq<PostRow>, nextID: int): (v: bool)
    ensures v ==> forall k :: 0 <= k < |spots| ==> spots[k].id != nextID
  {
    && UniqueMeshes(spots) && UniqueIDs(spots) && nextID >= 1
    && (forall k :: 0 <= k < |spots| ==> 1 <= spots[k].id < nextID)
    && (forall p :: p in posts ==> p.userID >= 0)
  }

  /** Create keeps the schema's guarantees: the upserted table still has unique meshes and ids,
      and the advanced sequence is still ahead of every id. */
  lemma UpsertKeepsValid(spots: seq<SpotRow>, posts: seq<PostRow>, nextID: int, spot: SpotRow)
    requires ValidTables(spots, posts, nextID)
    ensures ValidTables(Upserted(spots, spot, nextID), posts, nextID + 1)
  {
    UpsertLeavesOneRow(spots, spot, nextID);
    UpsertKeepsIDs(spots, spot, nextID);
    var after := Upserted(spots, spot, nextID);
    assert forall k :: 0 <= k < |after| ==> 1 <= after[k].id < nextID + 1;
  }

  /** Delete keeps the schema's guarantees. */
  lemma DeleteKeepsValid(spots: seq<SpotRow>, posts: seq<PostRow>, nextID: int, id: int)
    requires ValidTables(spots, posts, nextID)
    ensures ValidTables(Where(spots, NotID(id)), posts, nextID)
  {
    WhereKeepsUniqueMeshes(spots, NotID(id));
    WhereKeepsUniqueIDs(spots, NotID(id));
    var kept := Where(spots, NotID(id));
    assert forall k :: 0 <= k < |kept| ==> kept[k] in spots;
  }

  /** The users of the resonance rows are post authors, so they are valid ids already. */
  lemma ResonantRowsAreIDs(spots: seq<SpotRow>, posts: seq<PostRow>, nextID: int, requester: int)
    requires ValidTables(spots, posts, nextID)
    ensures forall g :: g in ResonantRows(spots, posts, requester) ==> g.0 >= 0 && NewID(g.0).value == ID(g.0)
  {
    ResonantRowsSpec(spots, posts, requester);
  }

  /** The texts bound to `$1` of the candidate query (`mStrs`). */
  function MeshTexts(meshIDs: seq<MeshID>): (r: seq<string>)
    ensures |r| == |meshIDs|
  {
    seq(|meshIDs|, k requires 0 <= k < |meshIDs| => meshIDs[k].String())
  }

  /** The integers bound to `$2` of the candidate query (`uInts`). */
  function IDValues(ids: seq<ID>): (r: seq<int>)
    ensures |r| == |ids|
  {
    seq(|ids|, k requires 0 <= k < |ids| => ids[k].Value())
  }

  /** A spot is a candidate iff one of the meshes names its mesh and one of the users registered
      it; with no meshes or no users there is no candidate. */
  lemma CandidateIff(row: SpotRow, spots: seq<SpotRow>, meshIDs: seq<MeshID>, userIDs: seq<ID>)
    ensures row in Where(spots, InMeshesByUsers(MeshTexts(meshIDs), IDValues(userIDs)))
        <==> row in spots && (exists k :: 0 <= k < |meshIDs| && meshIDs[k].String() == row.meshID)
                          && (exists k :: 0 <= k < |userIDs| && userIDs[k].Value() == row.registeredUserID)
    ensures meshIDs == [] || userIDs == [] ==> Where(spots, InMeshesByUsers(MeshTexts(meshIDs), IDValues(userIDs))) == []
  {
    var ms, us := MeshTexts(meshIDs), IDValues(userIDs);
    assert row.meshID in ms <==> exists k :: 0 <= k < |meshIDs| && meshIDs[k].String() == row.meshID by {
      if row.meshID in ms {
        var k :| 0 <= k < |ms| && ms[k] == row.meshID;
        assert meshIDs[k].String() == row.meshID;
      }
      if exists k :: 0 <= k < |meshIDs| && meshIDs[k].String() == row.meshID {
        var k :| 0 <= k < |meshIDs| && meshIDs[k].String() == row.meshID;
        assert ms[k] == row.meshID;
      }
    }
    assert row.registeredUserID in us <==> exists k :: 0 <= k < |userIDs| && userIDs[k].Value() == row.registeredUserID by {
      if row.registeredUserID in us {
        var k :| 0 <= k < |us| && us[k] == row.registeredUserID;
        assert userIDs[k].Value() == row.registeredUserID;
      }
      if exists k :: 0 <= k < |userIDs| && userIDs[k].Value() == row.registeredUserID {
        var k :| 0 <= k < |userIDs| && userIDs[k].Value() == row.registeredUserID;
        assert us[k] == row.registeredUserID;
      }
    }
    var w := Where(spots, InMeshesByUsers(ms, us));
  }

  class SpotStore {
    var spots: seq<SpotRow>
    var posts: seq<PostRow>
    /** The next value of the `spots.id` sequence. */
    var nextID: int
    /** When set, the connection is failing and every statement returns this error. */
    var fault: Option<Error>

    predicate Valid(): (v: bool)
      reads this
      ensures v ==> forall k :: 0 <= k < |spots| ==> spots[k].id != nextID && spots[k].id >= 1
    {
      ValidTables(spots, posts, nextID)
    }

    /** A repository over a database in the given state (`NewSpotRepository`). */
    constructor (spots0: seq<SpotRow>, posts0: seq<PostRow>, nextID0: int, fault0: Option<Error>)
      requires ValidTables(spots0, posts0, nextID0)
      ensures Valid()
      ensures spots == spots0 && posts == posts0 && nextID == nextID0 && fault == fault0
    {
      spots, posts, nextID, fault := spots0, posts0, nextID0, fault0;
    }

    /** `FindByLocation`: the first row in the coordinate's mesh, or no spot (and no error) when
        the mesh is empty. An invalid coordinate is looked up under the empty mesh text. */
    function FindByLocation(lat: real, lng: real): (r: Result<Option<SpotRow>>)
      reads this
      ensures fault.Some? ==> r == Err(fault.value)
      ensures fault.None? ==> r.Ok?
      ensures r == Ok(None) <==>
        fault.None? && forall k :: 0 <= k < |spots| ==> spots[k].meshID != NewMeshID(lat, lng).value.String()
      ensures r.Ok? && r.value.Some? ==>
        r.value.value in spots && r.value.value.meshID == NewMeshID(lat, lng).value.String()
      ensures fault.None? && !(ValidLatitude(lat) && ValidLongitude(lng)) && (forall k :: 0 <= k < |spots| ==> spots[k].meshID != "")
        ==> r == Ok(None)
    {
      var mesh := NewMeshID(lat, lng).value.String();
      if fault.Some? then Err(fault.value)
      else
        match FirstWhere(spots, InMesh(mesh))
        case None => Ok(None)
        case Some(k) => Ok(Some(spots[k]))
    }

    /** `FindByID`: the row with that id; a missing row is an error, unlike `FindByLocation`. */
    function FindByID(id: ID): (r: Result<SpotRow>)
      reads this
      ensures fault.Some? ==> r == Err(fault.value)
      ensures fault.None? ==> (r == Err(ErrNoRows) <==> forall k :: 0 <= k < |spots| ==> spots[k].id != id.Value())
      ensures fault.None? ==> r.Err? ==> r.error == ErrNoRows
      ensures r.Ok? ==> r.value in spots && r.value.id == id.Value()
    {
      if fault.Some? then Err(fault.value)
      else
        match FirstWhere(spots, HasID(id.Value()))
        case None => Err(ErrNoRows)
        case Some(k) => Ok(spots[k])
    }

    /** `FindByMeshID`: every row of the mesh, in table order; at most one under the unique index. */
    method FindByMeshID(meshID: MeshID) returns (r: Result<seq<SpotRow>>)
      ensures fault.Some? ==> r == Err(fault.value)
      ensures fault.None? ==> r == Ok(Where(spots, InMesh(meshID.String())))
      ensures r.Ok? ==> forall s :: s in r.value <==> s in spots && s.meshID == meshID.String()
      ensures r.Ok? && UniqueMeshes(spots) ==> |r.value| <= 1
    {
      if fault.Some? {
        return Err(fault.value);
      }
      var found: seq<SpotRow> := [];
      var i := 0;
      while i < |spots|
        invariant 0 <= i <= |spots|
        invariant found == Where(spots[..i], InMesh(meshID.String()))
      {
        assert spots[..i + 1][..i] == spots[..i];
        if spots[i].meshID == meshID.String() {
          found := found + [spots[i]];
        }
        i := i + 1;
      }
      assert spots[..i] == spots;
      if UniqueMeshes(spots) {
        UniqueMeshCount(spots, meshID.String());
      }
      return Ok(found);
    }

    /** `FindResonantUsersWithMatchCount`: the rows of the resonance query turned into values, one
        per row and in row order (see `SpotTables.ResonantRowsSpec` for what the rows are). */
    method FindResonantUsersWithMatchCount(userID: ID) returns (r: Result<seq<ResonantUser>>)
      requires Valid()
      ensures fault.Some? ==> r == Err(fault.value)
      ensures fault.None? ==> r.Ok? && |r.value| == |ResonantRows(spots, posts, userID.Value())|
      ensures r.Ok? ==> forall k :: 0 <= k < |r.value| ==>
        var row := ResonantRows(spots, posts, userID.Value())[k];
        r.value[k].id.Value() == row.0 && r.value[k].matchCount == row.1
    {
      if fault.Some? {
        return Err(fault.value);
      }
      var rows := ResonantRows(spots, posts, userID.Value());
      ResonantRowsAreIDs(spots, posts, nextID, userID.Value());
      var result: seq<ResonantUser> := [];
      var i := 0;
      while i < |rows|
        invariant 0 <= i <= |rows|
        invariant |result| == i
        invariant forall k :: 0 <= k < i ==> result[k].id.Value() == rows[k].0 && result[k].matchCount == rows[k].1
      {
        var (uid, count) := rows[i];
        assert rows[i] in rows;
        var idVO := NewID(uid).value;
        result := result + [ResonantUser(idVO, count)];
        i := i + 1;
      }
      return Ok(result);
    }

    /** What the resonance result means: every entry is another user sharing at least one mesh
        with the requester, with the number of shared meshes, which is at most the requester's
        own; every such user appears, and only once. */
    lemma ResonantUsersMeaning(userID: ID, result: seq<ResonantUser>)
      requires Valid()
      requires |result| == |ResonantRows(spots, posts, userID.Value())|
      requires forall k :: 0 <= k < |result| ==>
        result[k].id.Value() == ResonantRows(spots, posts, userID.Value())[k].0
        && result[k].matchCount == ResonantRows(spots, posts, userID.Value())[k].1
      ensures forall x :: x in result ==>
        && x.id.Value() in ResonantIDs(spots, posts, userID.Value())
        && x.id.Value() != userID.Value()
        && x.matchCount == MatchCount(spots, posts, x.id.Value(), userID.Value())
        && 1 <= x.matchCount <= |PostedMeshes(spots, posts, userID.Value())|
      ensures forall u :: u in ResonantIDs(spots, posts, userID.Value()) ==> exists x :: x in result && x.id.Value() == u
      ensures forall a, b :: 0 <= a < b < |result| ==> result[a].id != result[b].id
    {
      var req := userID.Value();
      var rows := ResonantRows(spots, posts, req);
      ResonantRowsSpec(spots, posts, req);
      forall x | x in result
        ensures x.id.Value() in ResonantIDs(spots, posts, req) && x.matchCount == MatchCount(spots, posts, x.id.Value(), req)
        ensures 1 <= x.matchCount <= |PostedMeshes(spots, posts, req)|
      {
        var k :| 0 <= k < |result| && result[k] == x;
        assert rows[k] in rows;
        MatchCountBounds(spots, posts, x.id.Value(), req);
      }
      forall u | u in ResonantIDs(spots, posts, req) ensures exists x :: x in result && x.id.Value() == u {
        var g :| g in rows && g.0 == u;
        var k :| 0 <= k < |rows| && rows[k] == g;
        assert result[k] in result;
      }
    }

    /** `FindSpotsByMeshAndUsers`: the rows in one of the meshes and registered by one of the
        users, in table order. */
    method FindSpotsByMeshAndUsers(meshIDs: seq<MeshID>, userIDs: seq<ID>) returns (r: Result<seq<SpotRow>>)
      ensures fault.Some? ==> r == Err(fault.value)
      ensures fault.None? ==> r == Ok(Where(spots, InMeshesByUsers(MeshTexts(meshIDs), IDValues(userIDs))))
    {
      var mStrs := new string[|meshIDs|];
      var i := 0;
      while i < |meshIDs|
        invariant 0 <= i <= |meshIDs|
        invariant forall k :: 0 <= k < i ==> mStrs[k] == meshIDs[k].String()
      {
        mStrs[i] := meshIDs[i].String();
        i := i + 1;
      }
      var uInts := new int[|userIDs|];
      i := 0;
      while i < |userIDs|
        invariant 0 <= i <= |userIDs|
        invariant forall k :: 0 <= k < i ==> uInts[k] == userIDs[k].Value()
        invariant forall k :: 0 <= k < |meshIDs| ==> mStrs[k] == meshIDs[k].String()
      {
        uInts[i] := userIDs[i].Value();
        i := i + 1;
      }
      assert mStrs[..] == MeshTexts(meshIDs);
      assert uInts[..] == IDValues(userIDs);
      if fault.Some? {
        return Err(fault.value);
      }
      var selected := InMeshesByUsers(mStrs[..], uInts[..]);
      var found: seq<SpotRow> := [];
      i := 0;
      while i < |spots|
        invariant 0 <= i <= |spots|
        invariant found == Where(spots[..i], selected)
      {
        assert spots[..i + 1][..i] == spots[..i];
        if spots[i].meshID in mStrs[..] && spots[i].registeredUserID in uInts[..] {
          found := found + [spots[i]];
        }
        i := i + 1;
      }
      assert spots[..i] == spots;
      return Ok(found);
    }

    /** `GetDensityScoreByMesh`: `count(*)` of the mesh's rows, which the unique index keeps at
        0 or 1; on a failing query the zero score comes back with the error. */
    function GetDensityScoreByMesh(meshID: MeshID): (r: Checked<DensityScore>)
      reads this
      ensures r.err == fault
      ensures fault.Some? ==> r.value.Int() == 0
      ensures fault.None? ==> r.value.Int() == |Where(spots, InMesh(meshID.String()))|
      ensures UniqueMeshes(spots) ==> 0 <= r.value.Int() <= 1
      ensures UniqueMeshes(spots) && fault.None? ==>
        (r.value.Int() == 1 <==> exists k :: 0 <= k < |spots| && spots[k].meshID == meshID.String())
    {
      if fault.Some? then Checked(NewDensityScore(0).value, fault)
      else
        var count := |Where(spots, InMesh(meshID.String()))|;
        assert UniqueMeshes(spots) ==>
          count <= 1 && (count == 1 <==> exists k :: 0 <= k < |spots| && spots[k].meshID == meshID.String()) by {
          if UniqueMeshes(spots) {
            UniqueMeshCount(spots, meshID.String());
          }
        }
        Checked(NewDensityScore(count).value, None)
    }

    /** `FindPostsBySpot`: the posts on that spot, in table order. */
    method FindPostsBySpot(spotID: ID) returns (r: Result<seq<PostRow>>)
      ensures fault.Some? ==> r == Err(fault.value)
      ensures fault.None? ==> r == Ok(Where(posts, OnSpot(spotID.Value())))
      ensures r.Ok? ==> forall p :: p in r.value <==> p in posts && p.spotID == spotID.Value()
    {
      if fault.Some? {
        return Err(fault.value);
      }
      var found: seq<PostRow> := [];
      var i := 0;
      while i < |posts|
        invariant 0 <= i <= |posts|
        invariant found == Where(posts[..i], OnSpot(spotID.Value()))
      {
        assert posts[..i + 1][..i] == posts[..i];
        if posts[i].spotID == spotID.Value() {
          found := found + [posts[i]];
        }
        i := i + 1;
      }
      assert posts[..i] == posts;
      return Ok(found);
    }

    /** `Create`: the upsert on mesh_id. The id sequence advances even when the row already
        existed; the spot comes back carrying the id of the row that now holds its mesh. */
    method Create(spot: SpotRow) returns (r: Result<SpotRow>)
      requires Valid()
      modifies this
      ensures Valid()
      ensures posts == old(posts) && fault == old(fault)
      ensures old(fault).Some? ==> r == Err(old(fault).value) && spots == old(spots) && nextID == old(nextID)
      ensures old(fault).None? ==>
        && spots == Upserted(old(spots), spot, old(nextID))
        && nextID == old(nextID) + 1
        && r == Ok(spot.(id := UpsertedID(old(spots), spot, old(nextID))))
    {
      if fault.Some? {
        return Err(fault.value);
      }
      UpsertKeepsValid(spots, posts, nextID, spot);
      var after, id := Upserted(spots, spot, nextID), UpsertedID(spots, spot, nextID);
      spots := after;
      nextID := nextID + 1;
      return Ok(spot.(id := id));
    }

    /** `Update`: sets name and location of the row with the spot's id; mesh_id is not recomputed
        (see `SpotTables.RelocateLeavesStaleMesh`). */
    method Update(spot: SpotRow) returns (err: Option<Error>)
      requires Valid()
      modifies this
      ensures Valid()
      ensures err == old(fault) && posts == old(posts) && nextID == old(nextID) && fault == old(fault)
      ensures old(fault).Some? ==> spots == old(spots)
      ensures old(fault).None? ==> spots == Relocate(old(spots), spot)
    {
      if fault.Some? {
        return fault;
      }
      RelocateKeepsKeys(spots, spot);
      spots := Relocate(spots, spot);
      return None;
    }

    /** `Delete`: removes the row with that id, if any. */
    method Delete(id: ID) returns (err: Option<Error>)
      requires Valid()
      modifies this
      ensures Valid()
      ensures err == old(fault) && posts == old(posts) && nextID == old(nextID) && fault == old(fault)
      ensures old(fault).Some? ==> spots == old(spots)
      ensures old(fault).None? ==> spots == Where(old(spots), NotID(id.Value()))
      ensures forall s :: s in spots ==> s.id != id.Value() || old(fault).Some?
    {
      if fault.Some? {
        return fault;
      }
      DeleteKeepsValid(spots, posts, nextID, id.Value());
      spots := Where(spots, NotID(id.Value()));
      return None;
    }
  }
}
