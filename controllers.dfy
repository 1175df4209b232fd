/** The HTTP controllers of the spot endpoints, as decisions from a request to a response. The use
    case each one calls, and `strconv.ParseFloat`, are parameters. */
module Controllers {
  import opened Wrappers
  import opened Text
  import opened AuthHeader

  const StatusOK: int := 200
  const StatusBadRequest: int := 400
  const StatusUnauthorized: int := 401
  const StatusNotFound: int := 404
  const StatusConflict: int := 409
  const StatusInternalServerError: int := 500

  /** A JSON body: an `error` object, a `message` object, or the use case's output. */
  datatype Body<O> = ErrorBody(error: string) | MessageBody(message: string) | Payload(output: O)

  datatype Response<O> = Response(status: int, body: Body<O>)

  // ----- GET recommendation (distill) -----

  /** What the distill controller hands to its use case. */
  datatype DistillRequest = DistillRequest(token: string, latitude: real, longitude: real)

  /** The message of the 404 answer when the use case recommends nothing. */
  const NoRecommendation: string := "No recommendation found in your resonance circle"

  /** The distill controller's `Execute`: header, then both query parameters, then the use case. A
      use-case error is answered 401 with its message, no output 404, an output 200. */
  function DistillController<O>(header: string, latParam: string, lngParam: string,
                                parseFloat: string -> Option<real>,
                                execute: DistillRequest -> Result<Option<O>>): (resp: Response<O>)
    ensures header == "" ==> resp == Response(StatusUnauthorized, ErrorBody("Authorization header is required"))
    ensures header != "" && SplitBearer(header).None? ==>
      resp == Response(StatusUnauthorized, ErrorBody("Invalid authorization format"))
    ensures SplitBearer(header).Some? && (latParam == "" || lngParam == "") ==>
      resp == Response(StatusBadRequest, ErrorBody("Latitude and longitude are required"))
    ensures SplitBearer(header).Some? && latParam != "" && lngParam != "" && parseFloat(latParam).None? ==>
      resp == Response(StatusBadRequest, ErrorBody("Invalid latitude format"))
    ensures SplitBearer(header).Some? && latParam != "" && lngParam != "" && parseFloat(latParam).Some?
            && parseFloat(lngParam).None? ==>
      resp == Response(StatusBadRequest, ErrorBody("Invalid longitude format"))
    ensures resp.status == StatusOK <==>
      && SplitBearer(header).Some? && latParam != "" && lngParam != ""
      && parseFloat(latParam).Some? && parseFloat(lngParam).Some?
      && var outcome := execute(DistillRequest(SplitBearer(header).value, parseFloat(latParam).value, parseFloat(lngParam).value));
         outcome.Ok? && outcome.value.Some? && resp.body == Payload(outcome.value.value)
    ensures SplitBearer(header).Some? && latParam != "" && lngParam != ""
            && parseFloat(latParam).Some? && parseFloat(lngParam).Some? ==>
      var outcome := execute(DistillRequest(SplitBearer(header).value, parseFloat(latParam).value, parseFloat(lngParam).value));
      && (outcome.Err? ==> resp == Response(StatusUnauthorized, ErrorBody(outcome.error.message)))
      && (outcome == Ok(None) ==> resp == Response(StatusNotFound, MessageBody(NoRecommendation)))
    ensures resp.status in {StatusOK, StatusBadRequest, StatusUnauthorized, StatusNotFound}
  {
    if header == "" then Response(StatusUnauthorized, ErrorBody("Authorization header is required"))
    else match SplitBearer(header)
    case None => Response(StatusUnauthorized, ErrorBody("Invalid authorization format"))
    case Some(token) =>
      if latParam == "" || lngParam == "" then
        Response(StatusBadRequest, ErrorBody("Latitude and longitude are required"))
      else match parseFloat(latParam)
      case None => Response(StatusBadRequest, ErrorBody("Invalid latitude format"))
      case Some(lat) =>
        match parseFloat(lngParam)
        case None => Response(StatusBadRequest, ErrorBody("Invalid longitude format"))
        case Some(lng) =>
          match execute(DistillRequest(token, lat, lng))
          case Err(e) => Response(StatusUnauthorized, ErrorBody(e.message))
          case Ok(None) => Response(StatusNotFound, MessageBody(NoRecommendation))
          case Ok(Some(output)) => Response(StatusOK, Payload(output))
  }

  /** The header is examined before the query: a bad header is 401 whatever the parameters. */
  lemma DistillHeaderFirst<O>(header: string, latParam: string, lngParam: string,
                              parseFloat: string -> Option<real>, execute: DistillRequest -> Result<Option<O>>)
    requires SplitBearer(header).None?
    ensures DistillController(header, latParam, lngParam, parseFloat, execute).status == StatusUnauthorized
    ensures DistillController(header, latParam, lngParam, parseFloat, execute)
         == DistillController(header, "", "", parseFloat, execute)
  {
  }

  /** The scheme is read in any letter case: "BEARER t" reaches the use case with token t. */
  lemma DistillSchemeAnyCase<O>(token: string, latParam: string, lngParam: string,
                                parseFloat: string -> Option<real>, execute: DistillRequest -> Result<Option<O>>)
    requires ' ' !in token
    ensures DistillController("BEARER" + [' '] + token, latParam, lngParam, parseFloat, execute)
         == DistillController("bearer" + [' '] + token, latParam, lngParam, parseFloat, execute)
  {
    assert ToLower("BEARER") == "bearer";
    SplitBearerAccepts("BEARER", token);
    SplitBearerAccepts("bearer", token);
  }

  // ----- POST spot with post (register) -----

  /** What the register controller hands to its use case. */
  datatype RegisterRequest = RegisterRequest(token: string, spotName: string, latitude: real, longitude: real,
                                             imageURL: string, caption: string, overwrite: bool)

  /** The body fields the register controller binds. */
  datatype RegisterBody = RegisterBody(spotName: string, latitude: real, longitude: real,
                                       imageURL: string, caption: string, overwrite: bool)

  /** The register controller's `Execute`: a header with the exact prefix "Bearer ", then a body
      that binds (`None` when binding fails), then the use case. Any use-case error is 409. */
  function RegisterController<O>(header: string, body: Option<RegisterBody>,
                                 execute: RegisterRequest -> Result<O>): (resp: Response<O>)
    ensures PrefixBearer(header).None? ==>
      resp == Response(StatusUnauthorized, ErrorBody("Missing or invalid authorization header"))
    ensures PrefixBearer(header).Some? && body.None? ==> resp == Response(StatusBadRequest, ErrorBody("Invalid request body"))
    ensures PrefixBearer(header).Some? && body.Some? ==>
      var b := body.value;
      var outcome := execute(RegisterRequest(PrefixBearer(header).value, b.spotName, b.latitude, b.longitude,
                                             b.imageURL, b.caption, b.overwrite));
      && (outcome.Err? ==> resp == Response(StatusConflict, ErrorBody(outcome.error.message)))
      && (outcome.Ok? ==> resp == Response(StatusOK, Payload(outcome.value)))
    ensures resp.status == StatusOK <==> PrefixBearer(header).Some? && body.Some? && resp.body.Payload?
  {
    match PrefixBearer(header)
    case None => Response(StatusUnauthorized, ErrorBody("Missing or invalid authorization header"))
    case Some(token) =>
      match body
      case None => Response(StatusBadRequest, ErrorBody("Invalid request body"))
      case Some(b) =>
        match execute(RegisterRequest(token, b.spotName, b.latitude, b.longitude, b.imageURL, b.caption, b.overwrite))
        case Err(e) => Response(StatusConflict, ErrorBody(e.message))
        case Ok(output) => Response(StatusOK, Payload(output))
  }

  /** The register controller reads the scheme case-sensitively, unlike the distill controller:
      "bearer t" is refused here, while the distill controller passes t to its use case. */
  lemma RegisterRejectsLowerCaseScheme<O>(token: string, body: Option<RegisterBody>, execute: RegisterRequest -> Result<O>)
    ensures RegisterController("bearer" + [' '] + token, body, execute).status == StatusUnauthorized
  {
    var header := "bearer" + [' '] + token;
    assert header[0] != Prefix[0];
    assert PrefixBearer(header).None?;
  }

  /** The same "bearer t" header reaches the distill controller's use case with token t. */
  lemma DistillAcceptsLowerCaseScheme<O>(token: string, lat: string, lng: string, parseFloat: string -> Option<real>,
                                         distill: DistillRequest -> Result<Option<O>>)
    requires ' ' !in token && lat != "" && lng != "" && parseFloat(lat).Some? && parseFloat(lng).Some?
    ensures var resp := DistillController("bearer" + [' '] + token, lat, lng, parseFloat, distill);
      distill(DistillRequest(token, parseFloat(lat).value, parseFloat(lng).value)) == Ok(None)
      ==> resp == Response(StatusNotFound, MessageBody(NoRecommendation))
  {
    assert ToLower("bearer") == "bearer";
    SplitBearerAccepts("bearer", token);
  }

  // ----- GET my spots (user spot) -----

  /** The user-spot controller's `Execute`: the same split reading of the header as the distill
      controller, with lower-case messages; the token is passed on unchanged; any use-case error
      is 500. */
  function UserSpotController<O>(header: string, execute: string -> Result<O>): (resp: Response<O>)
    ensures header == "" ==> resp == Response(StatusUnauthorized, ErrorBody("authorization header is required"))
    ensures header != "" && SplitBearer(header).None? ==>
      resp == Response(StatusUnauthorized, ErrorBody("invalid authorization format"))
    ensures SplitBearer(header).Some? ==>
      var outcome := execute(SplitBearer(header).value);
      && (outcome.Err? ==> resp == Response(StatusInternalServerError, ErrorBody(outcome.error.message)))
      && (outcome.Ok? ==> resp == Response(StatusOK, Payload(outcome.value)))
    ensures resp.status in {StatusOK, StatusUnauthorized, StatusInternalServerError}
  {
    if header == "" then Response(StatusUnauthorized, ErrorBody("authorization header is required"))
    else match SplitBearer(header)
    case None => Response(StatusUnauthorized, ErrorBody("invalid authorization format"))
    case Some(token) =>
      match execute(token)
      case Err(e) => Response(StatusInternalServerError, ErrorBody(e.message))
      case Ok(output) => Response(StatusOK, Payload(output))
  }

  /** The user-spot controller answers 401 exactly when the header fails the split reading; an
      absent header fails it too. */
  lemma UserSpotUnauthorizedIffBadHeader<O>(header: string, execute: string -> Result<O>)
    ensures UserSpotController(header, execute).status == StatusUnauthorized <==> SplitBearer(header).None?
  {
    if header == "" {
      assert |Split(header, Space)| == 1;
    }
  }
}
