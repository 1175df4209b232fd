/** The "list my spots" interactor: the authenticated user's spot paired with each of its posts.
    The token service and the repositories are given as functions from a request to its answer;
    the interactor records every request it makes, in order. */
module ListMySpots {
  import opened Wrappers
  import opened ValueObjects
  import opened Entities

  datatype Input = Input(token: string)

  /** One line of the listing: a spot and one of its posts. */
  datatype Pair = Pair(spot: Spot, post: Post)

  /** A request made to the token service or a repository. */
  datatype Call = VerifyToken(token: string) | FindByID(id: ID) | FindBySpotID(spotID: ID)

  datatype Services = Services(
    verifyToken: string -> Result<User>,
    findByID: ID -> Result<Option<Spot>>,
    findBySpotID: ID -> Result<seq<Post>>)

  /** `Execute`. A rejected token, an invalid user id or a failing lookup ends the run with that
      error. The user's own id is used as a spot id. No spot means an empty listing and no post
      lookup; otherwise the listing has one pair per post, in post order, each with that spot. */
  method Execute(svc: Services, input: Input) returns (r: Result<seq<Pair>>, calls: seq<Call>)
    ensures svc.verifyToken(input.token).Err? ==>
      r == Err(svc.verifyToken(input.token).error) && calls == [VerifyToken(input.token)]
    ensures svc.verifyToken(input.token).Ok? && NewID(svc.verifyToken(input.token).value.id.Value()).err.Some? ==>
      r == Err(NewID(svc.verifyToken(input.token).value.id.Value()).err.value) && calls == [VerifyToken(input.token)]
    ensures svc.verifyToken(input.token).Ok? && NewID(svc.verifyToken(input.token).value.id.Value()).err.None? ==>
      var user := svc.verifyToken(input.token).value;
      var uid := NewID(user.id.Value()).value;
      var found := svc.findByID(uid);
      && uid.Value() == user.id.Value()
      && (found.Err? ==> r == Err(found.error) && calls == [VerifyToken(input.token), FindByID(uid)])
      && (found == Ok(None) ==> r == Ok([]) && calls == [VerifyToken(input.token), FindByID(uid)])
      && (found.Ok? && found.value.Some? ==>
            var spot := found.value.value;
            var posts := svc.findBySpotID(spot.id);
            && calls == [VerifyToken(input.token), FindByID(uid), FindBySpotID(spot.id)]
            && (posts.Err? ==> r == Err(posts.error))
            && (posts.Ok? ==> (r.Ok? && |r.value| == |posts.value|
                                && forall k :: 0 <= k < |r.value| ==> r.value[k] == Pair(spot, posts.value[k]))))
  {
    calls := [VerifyToken(input.token)];
    var verified := svc.verifyToken(input.token);
    if verified.Err? {
      return Err(verified.error), calls;
    }
    var user := verified.value;
    var userID := NewID(user.id.Value());
    if userID.err.Some? {
      return Err(userID.err.value), calls;
    }
    calls := calls + [FindByID(userID.value)];
    var found := svc.findByID(userID.value);
    if found.Err? {
      return Err(found.error), calls;
    }
    var pairs: seq<Pair> := [];
    if found.value.Some? {
      var spot := found.value.value;
      calls := calls + [FindBySpotID(spot.id)];
      var posts := svc.findBySpotID(spot.id);
      if posts.Err? {
        return Err(posts.error), calls;
      }
      var i := 0;
      while i < |posts.value|
        invariant 0 <= i <= |posts.value|
        invariant |pairs| == i
        invariant forall k :: 0 <= k < i ==> pairs[k] == Pair(spot, posts.value[k])
      {
        pairs := pairs + [Pair(spot, posts.value[i])];
        i := i + 1;
      }
    }
    return Ok(pairs), calls;
  }
}
