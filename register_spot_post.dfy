/** The "register a spot with a post" interactor. Its repositories are given as functions from a
    request to the answer they would return; the interactor records every request it makes, in
    order, so that what it writes before failing is visible. */
module RegisterSpotPost {
  import opened Wrappers
  import opened ValueObjects
  import opened MeshIds
  import opened Entities

  datatype Input = Input(userID: int, spotName: string, latitude: real, longitude: real,
                         imageURL: string, caption: string, overwrite: bool)

  /** The identifiers handed back on success. */
  datatype Output = Output(spotID: int, postID: int)

  /** A request made to a repository. */
  datatype Call = FindByMeshID(meshID: MeshID) | CreateSpot(spot: Spot) | CreatePost(post: Post)

  /** The spot and post repositories, as the answers they give. */
  datatype Repositories = Repositories(
    findByMeshID: MeshID -> Result<seq<Spot>>,
    createSpot: Spot -> Result<Spot>,
    createPost: Post -> Result<Post>)

  const ErrSpotExists: Error := Error("spot already exists")

  /** The spot the interactor builds from its input: id 0, the given name and coordinates. */
  function Candidate(input: Input): (r: Result<Spot>)
    ensures r.Ok? <==> 1 <= |input.spotName| <= 64 && ValidLatitude(input.latitude) && ValidLongitude(input.longitude)
    ensures r.Ok? ==> && r.value.id.Value() == 0 && r.value.name.String() == input.spotName
                      && Decode(r.value.meshID.String()) == Some((CellKey(input.latitude), CellKey(input.longitude)))
  {
    NewSpot(0, input.spotName, input.latitude, input.longitude)
  }

  /** `Execute`. An invalid spot is rejected before any request; a failing lookup stops there; an
      occupied cell without `overwrite` is "spot already exists" and nothing is written; otherwise
      the spot is written. The user built next has an empty username, so every run that gets past
      the write fails there: the spot stays written, no post is written, and no run succeeds. */
  method Execute(repos: Repositories, input: Input) returns (r: Result<Output>, calls: seq<Call>)
    ensures r.Err?
    ensures forall c :: c in calls ==> !c.CreatePost?
    ensures Candidate(input).Err? ==> r == Err(Candidate(input).error) && calls == []
    ensures Candidate(input).Ok? ==>
      var spot := Candidate(input).value;
      var existing := repos.findByMeshID(spot.meshID);
      && (existing.Err? ==> r == Err(existing.error) && calls == [FindByMeshID(spot.meshID)])
      && (existing.Ok? && |existing.value| > 0 && !input.overwrite ==>
            r == Err(ErrSpotExists) && calls == [FindByMeshID(spot.meshID)])
      && (existing.Ok? && (|existing.value| == 0 || input.overwrite) ==>
            var created := repos.createSpot(spot);
            && calls == [FindByMeshID(spot.meshID), CreateSpot(spot)]
            && (created.Err? ==> r == Err(created.error))
            && (created.Ok? && input.userID < 0 ==> r == Err(Error("ID must be non-negative")))
            && (created.Ok? && input.userID >= 0 ==> r == Err(Error("username must be 3-32 chars"))))
  {
    calls := [];
    var built := NewSpot(0, input.spotName, input.latitude, input.longitude);
    if built.Err? {
      return Err(built.error), calls;
    }
    var spot := built.value;
    var existing := repos.findByMeshID(spot.meshID);
    calls := calls + [FindByMeshID(spot.meshID)];
    if existing.Err? {
      return Err(existing.error), calls;
    }
    if |existing.value| > 0 && !input.overwrite {
      return Err(ErrSpotExists), calls;
    }
    var created := repos.createSpot(spot);
    calls := calls + [CreateSpot(spot)];
    if created.Err? {
      return Err(created.error), calls;
    }
    // the user is built with an empty username, which `NewUser` never accepts
    var user := NewUser(input.userID, "", "", "");
    match user
    case Err(e) =>
      return Err(e), calls;
  }
}
