/** The "distill a recommendation" interactor. The spot repository and the recommendation service
    are given as functions from a request to its answer; the interactor records every request it
    makes, in order. */
module DistillRecommendation {
  import opened Wrappers
  import opened ValueObjects
  import opened Emails
  import opened Entities
  import RecommendationService

  datatype Input = Input(userID: int)

  /** A request made to the repository or the recommendation service. */
  datatype Call = FindByID(id: ID) | RecommendSpot(user: User, spots: seq<Spot>)

  datatype Services = Services(
    findByID: ID -> Result<Option<Spot>>,
    recommendSpot: (User, seq<Spot>) -> Result<Option<Spot>>)

  /** The user handed to the recommendation service: only the id is set. */
  function Requester(id: ID): (u: User)
    ensures u.id == id
    ensures NewUser(id.Value(), u.username.String(), u.email.String(), u.hashedPassword.String()).Err?
  {
    User(id, Username(""), Email(""), HashedPassword(""))
  }

  /** The candidate list: the spot found, if any. */
  function Candidates(found: Option<Spot>): (spots: seq<Spot>)
    ensures found.None? <==> spots == []
    ensures |spots| <= 1 && forall s :: s in spots <==> found == Some(s)
  {
    match found
    case None => []
    case Some(spot) => [spot]
  }

  /** `Execute`. A negative user id is rejected before any request. The user's id is used as a
      spot id; a failing lookup ends the run. The service is asked about the spot found (or about
      none) and its answer, error or spot, is the result. */
  method Execute(svc: Services, input: Input) returns (r: Result<Option<Spot>>, calls: seq<Call>)
    ensures input.userID < 0 ==> r == Err(Error("ID must be non-negative")) && calls == []
    ensures input.userID >= 0 ==>
      var found := svc.findByID(ID(input.userID));
      && (found.Err? ==> r == Err(found.error) && calls == [FindByID(ID(input.userID))])
      && (found.Ok? ==>
            && calls == [FindByID(ID(input.userID)), RecommendSpot(Requester(ID(input.userID)), Candidates(found.value))]
            && r == svc.recommendSpot(Requester(ID(input.userID)), Candidates(found.value)))
  {
    calls := [];
    var userID := NewID(input.userID);
    if userID.err.Some? {
      return Err(userID.err.value), calls;
    }
    var spot := svc.findByID(userID.value);
    calls := calls + [FindByID(userID.value)];
    if spot.Err? {
      return Err(spot.error), calls;
    }
    var user := Requester(userID.value);
    var spots: seq<Spot> := [];
    if spot.value.Some? {
      spots := spots + [spot.value.value];
    }
    assert spots == Candidates(spot.value);
    var recommended := svc.recommendSpot(user, spots);
    calls := calls + [RecommendSpot(user, spots)];
    if recommended.Err? {
      return Err(recommended.error), calls;
    }
    return Ok(recommended.value), calls;
  }

  /** With the implemented recommendation service, a valid request is answered with the very spot
      stored under the user's id, or with no recommendation when there is none. */
  lemma WithImplementedService(findByID: ID -> Result<Option<Spot>>, userID: int)
    requires userID >= 0
    requires findByID(ID(userID)).Ok?
    ensures var svc := Services(findByID, RecommendationService.RecommendSpot);
      svc.recommendSpot(Requester(ID(userID)), Candidates(findByID(ID(userID)).value)) == Ok(findByID(ID(userID)).value)
  {
    var found := findByID(ID(userID)).value;
    match found
    case None =>
    case Some(spot) =>
      RecommendationService.RecommendationIsHead(Requester(ID(userID)), spot, []);
      assert [spot] + [] == [spot];
  }
}
