/** The domain entities Spot, Post and User. Each constructor runs its validators in a fixed
    order and returns the first failure. */
module Entities {
  import opened Wrappers
  import opened ValueObjects
  import opened MeshIds
  import opened Emails
  import opened Text

  /** A point in time (`time.Time`); the core only stores and passes it on. */
  type Time = int

  datatype Spot = Spot(id: ID, name: SpotName, meshID: MeshID, latitude: Latitude, longitude: Longitude)

  /** `NewSpot`: id, name, latitude, longitude, then the mesh, which is always derived from the
      coordinates. */
  function NewSpot(id: int, name: string, lat: real, lng: real): (r: Result<Spot>)
    ensures id < 0 ==> r == Err(Error("ID must be non-negative"))
    ensures id >= 0 && !(1 <= |name| <= 64) ==> r == Err(Error("spot name must be 1-64 chars"))
    ensures id >= 0 && 1 <= |name| <= 64 && !ValidLatitude(lat) ==> r == Err(Error("latitude out of range"))
    ensures id >= 0 && 1 <= |name| <= 64 && ValidLatitude(lat) && !ValidLongitude(lng)
      ==> r == Err(Error("longitude out of range"))
    // the mesh step never fails once the coordinates passed
    ensures r.Ok? <==> id >= 0 && 1 <= |name| <= 64 && ValidLatitude(lat) && ValidLongitude(lng)
    ensures r.Ok? ==> (r.value.id.Value() == id && r.value.name.String() == name
                       && r.value.latitude.Value() == lat && r.value.longitude.Value() == lng)
    ensures r.Ok? ==> (r.value.meshID == NewMeshID(lat, lng).value
                       && Decode(r.value.meshID.String()) == Some((CellKey(lat), CellKey(lng))))
  {
    var spotID := NewID(id);
    if spotID.err.Some? then Err(spotID.err.value) else
    var spotName := NewSpotName(name);
    if spotName.err.Some? then Err(spotName.err.value) else
    var latitude := NewLatitude(lat);
    if latitude.err.Some? then Err(latitude.err.value) else
    var longitude := NewLongitude(lng);
    if longitude.err.Some? then Err(longitude.err.value) else
    var meshID := NewMeshID(lat, lng);
    match meshID.err
    case Some(e) => Err(e)
    case None => Ok(Spot(spotID.value, spotName.value, meshID.value, latitude.value, longitude.value))
  }

  /** Two spots built successfully share a mesh iff their coordinates fall in the same cell. */
  lemma SpotsShareMeshIffSameCell(id1: int, name1: string, lat1: real, lng1: real,
                                  id2: int, name2: string, lat2: real, lng2: real)
    requires NewSpot(id1, name1, lat1, lng1).Ok? && NewSpot(id2, name2, lat2, lng2).Ok?
    ensures NewSpot(id1, name1, lat1, lng1).value.meshID == NewSpot(id2, name2, lat2, lng2).value.meshID
        <==> CellKey(lat1) == CellKey(lat2) && CellKey(lng1) == CellKey(lng2)
  {
    SameCellIffSameMesh(lat1, lng1, lat2, lng2);
  }

  datatype Post = Post(id: ID, userID: ID, username: Username, imageURL: ImageURL, caption: Caption, postedAt: Time)

  /** `NewPost`: id, user id, username, image URL, caption; the timestamp is stored unchecked.
      `isAbsoluteURL` stands for the URL parser behind `NewImageURL`. */
  function NewPost(id: int, userID: int, username: string, imageURL: string, caption: string, postedAt: Time,
                   isAbsoluteURL: string -> bool): (r: Result<Post>)
    ensures id < 0 ==> r == Err(Error("ID must be non-negative"))
    ensures id >= 0 && userID < 0 ==> r == Err(Error("ID must be non-negative"))
    ensures id >= 0 && userID >= 0 && !(3 <= |username| <= 32) ==> r == Err(Error("username must be 3-32 chars"))
    ensures id >= 0 && userID >= 0 && 3 <= |username| <= 32 && !isAbsoluteURL(imageURL)
      ==> r == Err(Error("invalid image url"))
    ensures r.Ok? <==> id >= 0 && userID >= 0 && 3 <= |username| <= 32 && isAbsoluteURL(imageURL) && |caption| <= 256
    ensures r.Ok? ==> (r.value.id.Value() == id && r.value.userID.Value() == userID
                       && r.value.username.String() == username && r.value.imageURL.String() == imageURL
                       && r.value.caption.String() == caption && r.value.postedAt == postedAt)
  {
    var pid := NewID(id);
    if pid.err.Some? then Err(pid.err.value) else
    var uid := NewID(userID);
    if uid.err.Some? then Err(uid.err.value) else
    var uname := NewUsername(username);
    if uname.err.Some? then Err(uname.err.value) else
    var imgURL := NewImageURL(imageURL, isAbsoluteURL);
    if imgURL.err.Some? then Err(imgURL.err.value) else
    var capVO := NewCaption(caption);
    if capVO.err.Some? then Err(capVO.err.value) else
    Ok(Post(pid.value, uid.value, uname.value, imgURL.value, capVO.value, postedAt))
  }

  /** A post whose earlier fields pass fails on its caption exactly when the caption has more than
      256 runes; the empty caption is fine. */
  lemma PostCaptionRule(id: int, userID: int, username: string, imageURL: string, caption: string, postedAt: Time,
                        isAbsoluteURL: string -> bool)
    requires id >= 0 && userID >= 0 && 3 <= |username| <= 32 && isAbsoluteURL(imageURL)
    ensures NewPost(id, userID, username, imageURL, caption, postedAt, isAbsoluteURL)
      == (if |caption| > 256 then Err(Error("caption must be <= 256 chars"))
          else Ok(Post(ID(id), ID(userID), Username(username), ImageURL(imageURL), Caption(caption), postedAt)))
  {
  }

  datatype User = User(id: ID, username: Username, email: Email, hashedPassword: HashedPassword)

  /** `NewUser`: id, username, e-mail, hashed password. The e-mail is checked with the corrected
      pattern (`Emails.NewEmailIntended`); the pattern as written accepts no conventional address. */
  function NewUser(id: int, username: string, email: string, hashedPassword: string): (r: Result<User>)
    ensures id < 0 ==> r == Err(Error("ID must be non-negative"))
    ensures id >= 0 && !(3 <= |username| <= 32) ==> r == Err(Error("username must be 3-32 chars"))
    ensures id >= 0 && 3 <= |username| <= 32 && !MatchesIntendedEmail(email) ==> r == Err(Error("invalid email format"))
    ensures id >= 0 && 3 <= |username| <= 32 && MatchesIntendedEmail(email) && Utf8Len(hashedPassword) < 8
      ==> r == Err(Error("hashed password too short"))
    ensures r.Ok? <==> id >= 0 && 3 <= |username| <= 32 && MatchesIntendedEmail(email) && Utf8Len(hashedPassword) >= 8
    ensures r.Ok? ==> (r.value.id.Value() == id && r.value.username.String() == username
                       && r.value.email.String() == email && r.value.hashedPassword.String() == hashedPassword)
  {
    var uid := NewID(id);
    if uid.err.Some? then Err(uid.err.value) else
    var uname := NewUsername(username);
    if uname.err.Some? then Err(uname.err.value) else
    var emailVO := NewEmailIntended(email);
    if emailVO.err.Some? then Err(emailVO.err.value) else
    var hashVO := NewHashedPassword(hashedPassword);
    if hashVO.err.Some? then Err(hashVO.err.value) else
    Ok(User(uid.value, uname.value, emailVO.value, hashVO.value))
  }

  /** The sign-up tests' user is built, with its conventional address (the e-mail check is the
      corrected one, see `Emails.IntendedAcceptsConventional`). */
  lemma SignupUserBuilds()
    ensures NewUser(0, "new_malloy", "malloy@example.com", "hashed_password_abc").Ok?
  {
    IntendedAcceptsSignupAddress();
    Utf8LenAtLeastRunes("hashed_password_abc");
  }

  /** A user or post with an empty username is never built, whatever the other arguments. */
  lemma EmptyUsernameNeverBuilds(id: int, userID: int, email: string, hashedPassword: string,
                                 imageURL: string, caption: string, postedAt: Time, isAbsoluteURL: string -> bool)
    ensures NewUser(id, "", email, hashedPassword).Err?
    ensures NewPost(id, userID, "", imageURL, caption, postedAt, isAbsoluteURL).Err?
  {
  }
}
