/** The `spots` and `posts` tables of the spot repository as sequences of rows, and the meaning of
    the SQL statements the repository sends, as functions on those sequences. Table order stands
    for the order in which the database returns rows. */
module SpotTables {
  import opened Wrappers
  import opened MeshIds
  import opened Entities

  /** A row of `spots`: serial id, name, mesh_id, the two coordinates of `location`, and
      registered_user_id. */
  datatype SpotRow = SpotRow(id: int, name: string, meshID: string, latitude: real, longitude: real,
                             registeredUserID: int)

  /** A row of `posts`. */
  datatype PostRow = PostRow(id: int, userID: int, spotID: int, username: string, imageURL: string,
                             caption: string, postedAt: Time)

  // ----- selection -----

  /** The elements of `s` that satisfy `p`, in order (a `WHERE` clause). */
  function Where<T(==,!new)>(s: seq<T>, p: T -> bool): (r: seq<T>)
    ensures |r| <= |s|
    ensures forall x :: x in r <==> x in s && p(x)
  {
    if s == [] then []
    else
      var init := s[..|s| - 1];
      var w := Where(init, p);
      assert s == init + [s[|s| - 1]];
      w + (if p(s[|s| - 1]) then [s[|s| - 1]] else [])
  }

  /** The index of the first element of `s` that satisfies `p` (what `QueryRow` scans). */
  function FirstWhere<T>(s: seq<T>, p: T -> bool): (r: Option<nat>)
    ensures r.None? <==> forall k :: 0 <= k < |s| ==> !p(s[k])
    ensures r.Some? ==> r.value < |s| && p(s[r.value]) && forall k :: 0 <= k < r.value ==> !p(s[k])
  {
    if s == [] then None
    else if p(s[0]) then Some(0)
    else
      match FirstWhere(s[1..], p)
      case None =>
        assert forall k :: 1 <= k < |s| ==> s[k] == s[1..][k - 1];
        None
      case Some(k) =>
        assert forall j :: 1 <= j < k + 1 ==> s[j] == s[1..][j - 1];
        Some(k + 1)
  }

  /** `mesh_id = $1`. */
  function InMesh(mesh: string): SpotRow -> bool { (row: SpotRow) => row.meshID == mesh }

  /** `id = $1`. */
  function HasID(id: int): SpotRow -> bool { (row: SpotRow) => row.id == id }

  /** `p.spot_id = $1`. */
  function OnSpot(spotID: int): PostRow -> bool { (post: PostRow) => post.spotID == spotID }

  /** `mesh_id = ANY($1) AND registered_user_id = ANY($2)`. */
  function InMeshesByUsers(meshes: seq<string>, users: seq<int>): SpotRow -> bool
  {
    (row: SpotRow) => row.meshID in meshes && row.registeredUserID in users
  }

  /** `id <> $1`: the rows a `DELETE ... WHERE id = $1` leaves. */
  function NotID(id: int): SpotRow -> bool { (row: SpotRow) => row.id != id }

  // ----- constraints -----

  /** The unique index on mesh_id that `ON CONFLICT (mesh_id)` relies on. */
  predicate UniqueMeshes(rows: seq<SpotRow>)
  {
    forall i, j :: 0 <= i < j < |rows| ==> rows[i].meshID != rows[j].meshID
  }

  /** The primary key. */
  predicate UniqueIDs(rows: seq<SpotRow>)
  {
    forall i, j :: 0 <= i < j < |rows| ==> rows[i].id != rows[j].id
  }

  /** Every row's mesh_id is the cell of its own location, as `NewSpot` computes it. */
  predicate MeshConsistent(rows: seq<SpotRow>)
  {
    forall k :: 0 <= k < |rows| ==> rows[k].meshID == NewMeshID(rows[k].latitude, rows[k].longitude).value.String()
  }

  /** Under the unique index a mesh holds at most one row, and exactly one iff some row has it. */
  lemma {:induction false} UniqueMeshCount(rows: seq<SpotRow>, mesh: string)
    requires UniqueMeshes(rows)
    ensures |Where(rows, InMesh(mesh))| <= 1
    ensures |Where(rows, InMesh(mesh))| == 1 <==> exists k :: 0 <= k < |rows| && rows[k].meshID == mesh
  {
    if rows != [] {
      var init := rows[..|rows| - 1];
      var last := rows[|rows| - 1];
      assert UniqueMeshes(init);
      UniqueMeshCount(init, mesh);
      if last.meshID == mesh {
        assert forall k :: 0 <= k < |init| ==> init[k].meshID != mesh;
      } else {
        assert forall k :: 0 <= k < |rows| && rows[k].meshID == mesh ==> k < |init| && init[k] == rows[k];
      }
    }
  }

  /** A sub-selection of a table with unique meshes keeps them unique. */
  lemma {:induction false} WhereKeepsUniqueMeshes(rows: seq<SpotRow>, p: SpotRow -> bool)
    requires UniqueMeshes(rows)
    ensures UniqueMeshes(Where(rows, p))
  {
    if rows != [] {
      var init, last := rows[..|rows| - 1], rows[|rows| - 1];
      assert UniqueMeshes(init);
      WhereKeepsUniqueMeshes(init, p);
      var w := Where(init, p);
      forall k | 0 <= k < |w| ensures w[k].meshID != last.meshID {
        assert w[k] in init;
      }
    }
  }

  /** A sub-selection of a table with unique ids keeps them unique. */
  lemma {:induction false} WhereKeepsUniqueIDs(rows: seq<SpotRow>, p: SpotRow -> bool)
    requires UniqueIDs(rows)
    ensures UniqueIDs(Where(rows, p))
  {
    if rows != [] {
      var init, last := rows[..|rows| - 1], rows[|rows| - 1];
      assert UniqueIDs(init);
      WhereKeepsUniqueIDs(init, p);
      var w := Where(init, p);
      forall k | 0 <= k < |w| ensures w[k].id != last.id {
        assert w[k] in init;
      }
    }
  }

  // ----- the upsert of Create -----

  /** `ON CONFLICT (mesh_id) DO UPDATE SET name = EXCLUDED.name, location = EXCLUDED.location`:
      the stored row takes the new name and location and keeps everything else. */
  function Merged(row: SpotRow, spot: SpotRow): (r: SpotRow)
    ensures r.id == row.id && r.meshID == row.meshID && r.registeredUserID == row.registeredUserID
    ensures r.name == spot.name && r.latitude == spot.latitude && r.longitude == spot.longitude
  {
    row.(name := spot.name, latitude := spot.latitude, longitude := spot.longitude)
  }

  /** The `spots` table after `INSERT ... ON CONFLICT (mesh_id) DO UPDATE`; `serial` is the value
      the id sequence hands to this insert. */
  function Upserted(rows: seq<SpotRow>, spot: SpotRow, serial: int): (r: seq<SpotRow>)
    ensures (exists k :: 0 <= k < |rows| && rows[k].meshID == spot.meshID) ==> |r| == |rows|
    ensures (forall k :: 0 <= k < |rows| ==> rows[k].meshID != spot.meshID) ==> r == rows + [spot.(id := serial)]
    ensures forall k :: 0 <= k < |rows| && rows[k].meshID != spot.meshID ==> r[k] == rows[k]
  {
    match FirstWhere(rows, InMesh(spot.meshID))
    case Some(k) => rows[k := Merged(rows[k], spot)]
    case None => rows + [spot.(id := serial)]
  }

  /** The id of `RETURNING id`. */
  function UpsertedID(rows: seq<SpotRow>, spot: SpotRow, serial: int): (id: int)
    ensures (forall k :: 0 <= k < |rows| ==> rows[k].meshID != spot.meshID) ==> id == serial
    ensures (exists k :: 0 <= k < |rows| && rows[k].meshID == spot.meshID) ==>
      exists k :: 0 <= k < |rows| && rows[k].meshID == spot.meshID && rows[k].id == id
  {
    match FirstWhere(rows, InMesh(spot.meshID))
    case Some(k) => rows[k].id
    case None => serial
  }

  /** On conflict the row holding the mesh is merged in place, keeping its id and
      registered_user_id, and that id is returned; without one the spot is appended under the
      fresh serial, which is returned. */
  lemma UpsertCases(rows: seq<SpotRow>, spot: SpotRow, serial: int, k: int)
    requires UniqueMeshes(rows)
    ensures 0 <= k < |rows| && rows[k].meshID == spot.meshID ==>
      && Upserted(rows, spot, serial) == rows[k := Merged(rows[k], spot)]
      && UpsertedID(rows, spot, serial) == rows[k].id
      && Upserted(rows, spot, serial)[k].registeredUserID == rows[k].registeredUserID
    ensures (forall j :: 0 <= j < |rows| ==> rows[j].meshID != spot.meshID) ==>
      && Upserted(rows, spot, serial) == rows + [spot.(id := serial)]
      && UpsertedID(rows, spot, serial) == serial
  {
    var f := FirstWhere(rows, InMesh(spot.meshID));
    if 0 <= k < |rows| && rows[k].meshID == spot.meshID {
      assert f.Some? && rows[f.value].meshID == rows[k].meshID;
      assert f.value == k;
    }
  }

  /** Every existing row keeps its id, and a new row gets the serial. */
  lemma UpsertKeepsIDs(rows: seq<SpotRow>, spot: SpotRow, serial: int)
    ensures |Upserted(rows, spot, serial)| >= |rows|
    ensures forall k :: 0 <= k < |rows| ==> Upserted(rows, spot, serial)[k].id == rows[k].id
    ensures |Upserted(rows, spot, serial)| == |rows|
      || (|Upserted(rows, spot, serial)| == |rows| + 1 && Upserted(rows, spot, serial)[|rows|].id == serial)
  {
  }

  /** Rows of other meshes are untouched by the upsert. */
  lemma UpsertKeepsOtherMeshes(rows: seq<SpotRow>, spot: SpotRow, serial: int)
    ensures forall x: SpotRow :: x.meshID != spot.meshID ==> (x in Upserted(rows, spot, serial) <==> x in rows)
  {
    var after := Upserted(rows, spot, serial);
    var m := spot.meshID;
    match FirstWhere(rows, InMesh(m))
    case Some(k) =>
      assert after == rows[k := Merged(rows[k], spot)];
      forall x: SpotRow | x.meshID != m ensures x in after <==> x in rows {
        if x in after {
          var j :| 0 <= j < |after| && after[j] == x;
          assert j != k && after[j] == rows[j];
        }
        if x in rows {
          var j :| 0 <= j < |rows| && rows[j] == x;
          assert j != k && after[j] == rows[j];
        }
      }
    case None =>
  }

  /** The upsert keeps the unique index on mesh_id. */
  lemma UpsertKeepsUniqueMeshes(rows: seq<SpotRow>, spot: SpotRow, serial: int)
    requires UniqueMeshes(rows)
    ensures UniqueMeshes(Upserted(rows, spot, serial))
  {
    var after := Upserted(rows, spot, serial);
    match FirstWhere(rows, InMesh(spot.meshID))
    case Some(k) =>
      assert after == rows[k := Merged(rows[k], spot)];
      assert forall i :: 0 <= i < |after| ==> after[i].meshID == rows[i].meshID;
    case None =>
      assert after == rows + [spot.(id := serial)];
      assert forall i :: 0 <= i < |rows| ==> after[i] == rows[i] && rows[i].meshID != spot.meshID;
  }

  /** After the upsert some row holds the spot's mesh, and every such row carries the new name and
      location and the returned id. */
  lemma UpsertMeshRow(rows: seq<SpotRow>, spot: SpotRow, serial: int)
    requires UniqueMeshes(rows)
    ensures exists k :: 0 <= k < |Upserted(rows, spot, serial)| && Upserted(rows, spot, serial)[k].meshID == spot.meshID
    ensures forall x :: x in Upserted(rows, spot, serial) && x.meshID == spot.meshID ==>
      x.name == spot.name && x.latitude == spot.latitude && x.longitude == spot.longitude
      && x.id == UpsertedID(rows, spot, serial)
  {
    var after := Upserted(rows, spot, serial);
    var m := spot.meshID;
    match FirstWhere(rows, InMesh(m))
    case Some(k) =>
      assert after == rows[k := Merged(rows[k], spot)];
      assert after[k].meshID == m;
      forall x | x in after && x.meshID == m
        ensures x.name == spot.name && x.latitude == spot.latitude && x.longitude == spot.longitude && x.id == rows[k].id
      {
        var j :| 0 <= j < |after| && after[j] == x;
        assert j == k;
      }
    case None =>
      assert after == rows + [spot.(id := serial)];
      assert after[|rows|].meshID == m;
      forall x | x in after && x.meshID == m ensures x == after[|rows|] {
        var j :| 0 <= j < |after| && after[j] == x;
        assert j == |rows|;
      }
  }

  /** The upsert leaves exactly one row with the spot's mesh, carrying the new name and location
      and the returned id. */
  lemma UpsertLeavesOneRow(rows: seq<SpotRow>, spot: SpotRow, serial: int)
    requires UniqueMeshes(rows)
    ensures UniqueMeshes(Upserted(rows, spot, serial))
    ensures |Where(Upserted(rows, spot, serial), InMesh(spot.meshID))| == 1
    ensures forall x :: x in Upserted(rows, spot, serial) && x.meshID == spot.meshID ==>
      x.name == spot.name && x.latitude == spot.latitude && x.longitude == spot.longitude
      && x.id == UpsertedID(rows, spot, serial)
  {
    UpsertKeepsUniqueMeshes(rows, spot, serial);
    UpsertMeshRow(rows, spot, serial);
    UniqueMeshCount(Upserted(rows, spot, serial), spot.meshID);
  }

  /** Upserting a spot whose mesh is its own cell keeps every row's mesh its own cell: on conflict
      the new location lies in the row's mesh, since it is the spot's mesh. */
  lemma UpsertKeepsMeshConsistent(rows: seq<SpotRow>, spot: SpotRow, serial: int)
    requires MeshConsistent(rows)
    requires spot.meshID == NewMeshID(spot.latitude, spot.longitude).value.String()
    ensures MeshConsistent(Upserted(rows, spot, serial))
  {
    var after := Upserted(rows, spot, serial);
    match FirstWhere(rows, InMesh(spot.meshID))
    case Some(k) =>
      assert forall j :: 0 <= j < |rows| && j != k ==> after[j] == rows[j];
    case None =>
      assert forall j :: 0 <= j < |rows| ==> after[j] == rows[j];
  }

  // ----- Update -----

  /** `UPDATE spots SET name, location WHERE id = $4`: mesh_id is left as it was. */
  function Relocate(rows: seq<SpotRow>, spot: SpotRow): (r: seq<SpotRow>)
    ensures |r| == |rows|
    ensures forall k :: 0 <= k < |rows| && rows[k].id != spot.id ==> r[k] == rows[k]
    ensures forall k :: 0 <= k < |rows| && rows[k].id == spot.id ==>
      && r[k].name == spot.name && r[k].latitude == spot.latitude && r[k].longitude == spot.longitude
      && r[k].meshID == rows[k].meshID
  {
    seq(|rows|, k requires 0 <= k < |rows| =>
      if rows[k].id == spot.id then rows[k].(name := spot.name, latitude := spot.latitude, longitude := spot.longitude)
      else rows[k])
  }

  /** Update keeps every id, registered user and mesh, so it keeps both unique indexes. */
  lemma RelocateKeepsKeys(rows: seq<SpotRow>, spot: SpotRow)
    ensures forall k :: 0 <= k < |rows| ==>
      Relocate(rows, spot)[k].id == rows[k].id && Relocate(rows, spot)[k].meshID == rows[k].meshID
      && Relocate(rows, spot)[k].registeredUserID == rows[k].registeredUserID
    ensures UniqueMeshes(rows) ==> UniqueMeshes(Relocate(rows, spot))
    ensures UniqueIDs(rows) ==> UniqueIDs(Relocate(rows, spot))
  {
  }

  /** Moving a spot to another cell with Update leaves its old mesh_id behind: the table no longer
      agrees with the quantizer. */
  lemma RelocateLeavesStaleMesh(row: SpotRow, lat: real, lng: real)
    requires ValidLatitude(row.latitude) && ValidLongitude(row.longitude) && MeshConsistent([row])
    requires ValidLatitude(lat) && ValidLongitude(lng) && CellKey(lat) != CellKey(row.latitude)
    ensures !MeshConsistent(Relocate([row], row.(latitude := lat, longitude := lng)))
  {
    SameCellIffSameMesh(row.latitude, row.longitude, lat, lng);
    var moved := Relocate([row], row.(latitude := lat, longitude := lng));
    assert moved[0].meshID == row.meshID && moved[0].latitude == lat && moved[0].longitude == lng;
  }

  // ----- resonance -----

  /** The distinct meshes in which `user` has posted (posts joined with spots on spot_id). */
  function PostedMeshes(spots: seq<SpotRow>, posts: seq<PostRow>, user: int): (meshes: set<string>)
    ensures forall m :: m in meshes ==> exists s :: s in spots && s.meshID == m
    ensures user !in PostAuthors(posts) ==> meshes == {}
  {
    set p, s | p in posts && s in spots && p.userID == user && s.id == p.spotID :: s.meshID
  }

  /** `COUNT(DISTINCT s.mesh_id)` for `user`, restricted to the requester's meshes. */
  function MatchCount(spots: seq<SpotRow>, posts: seq<PostRow>, user: int, requester: int): (n: nat)
    ensures user !in PostAuthors(posts) || requester !in PostAuthors(posts) ==> n == 0
  {
    |PostedMeshes(spots, posts, user) * PostedMeshes(spots, posts, requester)|
  }

  /** The users who appear in some post. */
  function PostAuthors(posts: seq<PostRow>): set<int>
  {
    set p | p in posts :: p.userID
  }

  /** The groups of the resonance query: every other author sharing at least one mesh. */
  function ResonantIDs(spots: seq<SpotRow>, posts: seq<PostRow>, requester: int): set<int>
  {
    set u | u in PostAuthors(posts) && u != requester && MatchCount(spots, posts, u, requester) >= 1
  }

  /** The rows the resonance query returns, one `(user_id, match_count)` per group, taking the
      authors of `todo` in order of first appearance, skipping those in `seen`, the requester and
      those whose `count` is zero. SQL leaves the order of groups unspecified; this is one
      admissible order. */
  function GroupRows(todo: seq<PostRow>, seen: set<int>, requester: int, count: int -> nat): (rows: seq<(int, nat)>)
    ensures |rows| <= |todo|
    ensures forall k :: 0 <= k < |rows| ==> rows[k].0 !in seen && rows[k].0 != requester && rows[k].1 >= 1
    decreases |todo|
  {
    if todo == [] then []
    else
      var u := todo[0].userID;
      if u !in seen && u != requester && count(u) >= 1
      then [(u, count(u))] + GroupRows(todo[1..], seen + {u}, requester, count)
      else GroupRows(todo[1..], seen + {u}, requester, count)
  }

  /** The match count of each user against `requester`. */
  function MatchCounter(spots: seq<SpotRow>, posts: seq<PostRow>, requester: int): int -> nat
  {
    u => MatchCount(spots, posts, u, requester)
  }

  /** The whole result of the resonance query. */
  function ResonantRows(spots: seq<SpotRow>, posts: seq<PostRow>, requester: int): (rows: seq<(int, nat)>)
    ensures |rows| <= |posts|
    ensures forall k :: 0 <= k < |rows| ==> rows[k].0 != requester && rows[k].1 >= 1
  {
    GroupRows(posts, {}, requester, MatchCounter(spots, posts, requester))
  }

  /** No user has two rows. */
  predicate DistinctUsers(rows: seq<(int, nat)>)
  {
    forall a, b :: 0 <= a < b < |rows| ==> rows[a].0 != rows[b].0
  }

  /** Every group is an author of `todo`, not yet seen, not the requester, and carries its own
      positive count. */
  lemma {:induction false} GroupRowsSound(todo: seq<PostRow>, seen: set<int>, requester: int, count: int -> nat)
    ensures forall g :: g in GroupRows(todo, seen, requester, count) ==>
      g.0 in PostAuthors(todo) && g.0 !in seen && g.0 != requester && g.1 == count(g.0) && g.1 >= 1
  {
    if todo != [] {
      GroupRowsSound(todo[1..], seen + {todo[0].userID}, requester, count);
      assert todo == [todo[0]] + todo[1..];
      PostAuthorsCons(todo[0], todo[1..]);
    }
  }

  /** Every author of `todo` not yet seen, other than the requester and with a positive count, gets
      a group. */
  lemma {:induction false} GroupRowsComplete(todo: seq<PostRow>, seen: set<int>, requester: int, count: int -> nat)
    ensures forall u :: u in PostAuthors(todo) && u !in seen && u != requester && count(u) >= 1 ==>
                          exists g :: g in GroupRows(todo, seen, requester, count) && g.0 == u
  {
    if todo != [] {
      var v := todo[0].userID;
      GroupRowsComplete(todo[1..], seen + {v}, requester, count);
      assert todo == [todo[0]] + todo[1..];
      PostAuthorsCons(todo[0], todo[1..]);
      var rows := GroupRows(todo, seen, requester, count);
      if v !in seen && v != requester && count(v) >= 1 {
        assert rows[0].0 == v;
      }
    }
  }

  /** No user gets two groups. */
  lemma {:induction false} GroupRowsDistinct(todo: seq<PostRow>, seen: set<int>, requester: int, count: int -> nat)
    ensures DistinctUsers(GroupRows(todo, seen, requester, count))
  {
    if todo != [] {
      var u := todo[0].userID;
      var rest := GroupRows(todo[1..], seen + {u}, requester, count);
      GroupRowsDistinct(todo[1..], seen + {u}, requester, count);
      GroupRowsSound(todo[1..], seen + {u}, requester, count);
      var rows := GroupRows(todo, seen, requester, count);
      if u !in seen && u != requester && count(u) >= 1 {
        assert rows == [(u, count(u))] + rest;
        forall a, b | 0 <= a < b < |rows| ensures rows[a].0 != rows[b].0 {
          assert rows[b] == rest[b - 1] && rest[b - 1] in rest;
          if a > 0 {
            assert rows[a] == rest[a - 1];
          } else {
            assert rows[a].0 == u;
          }
        }
      }
    }
  }

  /** The resonance query returns exactly the resonant users, each once, with their match counts. */
  lemma ResonantRowsSpec(spots: seq<SpotRow>, posts: seq<PostRow>, requester: int)
    ensures forall g :: g in ResonantRows(spots, posts, requester) ==>
      g.0 in ResonantIDs(spots, posts, requester) && g.1 == MatchCount(spots, posts, g.0, requester)
    ensures forall u :: u in ResonantIDs(spots, posts, requester) ==>
      exists g :: g in ResonantRows(spots, posts, requester) && g.0 == u
    ensures DistinctUsers(ResonantRows(spots, posts, requester))
  {
    var count := MatchCounter(spots, posts, requester);
    GroupRowsSound(posts, {}, requester, count);
    GroupRowsComplete(posts, {}, requester, count);
    GroupRowsDistinct(posts, {}, requester, count);
  }

  lemma PostAuthorsCons(p: PostRow, posts: seq<PostRow>)
    ensures PostAuthors([p] + posts) == {p.userID} + PostAuthors(posts)
  {
    assert forall q :: q in [p] + posts <==> q == p || q in posts;
  }

  /** A match count never exceeds the number of meshes the requester has posted in, nor the
      number the user has, and it is symmetric. */
  lemma MatchCountBounds(spots: seq<SpotRow>, posts: seq<PostRow>, user: int, requester: int)
    ensures MatchCount(spots, posts, user, requester) <= |PostedMeshes(spots, posts, requester)|
    ensures MatchCount(spots, posts, user, requester) <= |PostedMeshes(spots, posts, user)|
    ensures MatchCount(spots, posts, user, requester) == MatchCount(spots, posts, requester, user)
  {
    var a, b := PostedMeshes(spots, posts, user), PostedMeshes(spots, posts, requester);
    SubsetCard(a * b, b);
    SubsetCard(a * b, a);
    assert a * b == b * a;
  }

  lemma {:induction false} SubsetCard<T>(a: set<T>, b: set<T>)
    requires a <= b
    ensures |a| <= |b|
  {
    if a != {} {
      var x :| x in a;
      SubsetCard(a - {x}, b - {x});
    }
  }

  /** A user who has posted nothing resonates with no one, and no one resonates with them. */
  lemma SilentUserResonatesWithNoOne(spots: seq<SpotRow>, posts: seq<PostRow>, user: int)
    requires forall p :: p in posts ==> p.userID != user
    ensures ResonantIDs(spots, posts, user) == {}
    ensures user !in ResonantIDs(spots, posts, user)
    ensures forall r :: user !in ResonantIDs(spots, posts, r)
  {
    assert PostedMeshes(spots, posts, user) == {};
    forall u ensures MatchCount(spots, posts, u, user) == 0 {
      assert PostedMeshes(spots, posts, u) * PostedMeshes(spots, posts, user) == {};
    }
  }
}
