/** The recommendation service as implemented: a placeholder that recommends the first candidate. */
module RecommendationService {
  import opened Wrappers
  import opened Entities

  /** `RecommendSpot`: no recommendation (nil, nil) for an empty candidate list, otherwise the
      first candidate. The result never carries an error. */
  function RecommendSpot(user: User, spots: seq<Spot>): (r: Result<Option<Spot>>)
    ensures r.Ok?
    ensures r.value.None? <==> |spots| == 0
    ensures r.value.Some? ==> r.value.value in spots && r.value.value == spots[0]
  {
    if |spots| == 0 then Ok(None) else Ok(Some(spots[0]))
  }

  /** The user plays no part: two users given the same candidates get the same answer. */
  lemma RecommendationIgnoresUser(u1: User, u2: User, spots: seq<Spot>)
    ensures RecommendSpot(u1, spots) == RecommendSpot(u2, spots)
  {
  }

  /** Adding candidates after the first never changes the recommendation, and a lone candidate is
      always the one recommended. */
  lemma RecommendationIsHead(user: User, s: Spot, rest: seq<Spot>)
    ensures RecommendSpot(user, [s] + rest) == Ok(Some(s))
    ensures RecommendSpot(user, [s]) == RecommendSpot(user, [s] + rest)
  {
  }
}
