/** The validated value objects of the domain. Each `NewX` returns Go's pair: the accepted value
    (or the zero value) and an optional error whose message is the one the code uses. */
module ValueObjects {
  import opened Wrappers
  import opened Text

  // ----- ID -----

  datatype ID = ID(raw: int) {
    function Value(): int { raw }
  }

  function NewID(value: int): (r: Checked<ID>)
    ensures r.Accepted() <==> value >= 0
    ensures r.Accepted() ==> r.value.Value() == value
    ensures !r.Accepted() ==> r.value.Value() == 0 && r.err == Some(Error("ID must be non-negative"))
  {
    if value < 0 then Checked(ID(0), Some(Error("ID must be non-negative"))) else Checked(ID(value), None)
  }

  // ----- Latitude / Longitude -----

  datatype Latitude = Latitude(raw: real) {
    function Value(): real { raw }
  }

  function NewLatitude(value: real): (r: Checked<Latitude>)
    ensures r.Accepted() <==> -90.0 <= value <= 90.0
    ensures r.Accepted() ==> r.value.Value() == value
    ensures !r.Accepted() ==> r.value.Value() == 0.0 && r.err == Some(Error("latitude out of range"))
  {
    if value < -90.0 || value > 90.0 then Checked(Latitude(0.0), Some(Error("latitude out of range")))
    else Checked(Latitude(value), None)
  }

  datatype Longitude = Longitude(raw: real) {
    function Value(): real { raw }
  }

  function NewLongitude(value: real): (r: Checked<Longitude>)
    ensures r.Accepted() <==> -180.0 <= value <= 180.0
    ensures r.Accepted() ==> r.value.Value() == value
    ensures !r.Accepted() ==> r.value.Value() == 0.0 && r.err == Some(Error("longitude out of range"))
  {
    if value < -180.0 || value > 180.0 then Checked(Longitude(0.0), Some(Error("longitude out of range")))
    else Checked(Longitude(value), None)
  }

  // ----- names and texts (lengths in runes) -----

  datatype SpotName = SpotName(raw: string) {
    function String(): string { raw }
  }

  function NewSpotName(value: string): (r: Checked<SpotName>)
    ensures r.Accepted() <==> 1 <= |value| <= 64
    ensures r.Accepted() ==> r.value.String() == value
    ensures !r.Accepted() ==> r.value.String() == "" && r.err == Some(Error("spot name must be 1-64 chars"))
  {
    if |value| < 1 || |value| > 64 then Checked(SpotName(""), Some(Error("spot name must be 1-64 chars")))
    else Checked(SpotName(value), None)
  }

  datatype Username = Username(raw: string) {
    function String(): string { raw }
  }

  function NewUsername(value: string): (r: Checked<Username>)
    ensures r.Accepted() <==> 3 <= |value| <= 32
    ensures r.Accepted() ==> r.value.String() == value
    ensures !r.Accepted() ==> r.value.String() == "" && r.err == Some(Error("username must be 3-32 chars"))
  {
    if |value| < 3 || |value| > 32 then Checked(Username(""), Some(Error("username must be 3-32 chars")))
    else Checked(Username(value), None)
  }

  datatype Caption = Caption(raw: string) {
    function String(): string { raw }
  }

  function NewCaption(value: string): (r: Checked<Caption>)
    ensures r.Accepted() <==> |value| <= 256
    ensures r.Accepted() ==> r.value.String() == value
    ensures !r.Accepted() ==> r.value.String() == "" && r.err == Some(Error("caption must be <= 256 chars"))
  {
    if |value| > 256 then Checked(Caption(""), Some(Error("caption must be <= 256 chars")))
    else Checked(Caption(value), None)
  }

  datatype Reason = Reason(raw: string) {
    function String(): string { raw }
  }

  function NewReason(value: string): (r: Checked<Reason>)
    ensures r.Accepted() <==> value != ""
    ensures r.Accepted() ==> r.value.String() == value
    ensures !r.Accepted() ==> r.value.String() == "" && r.err == Some(Error("reason cannot be empty"))
  {
    if value == "" then Checked(Reason(""), Some(Error("reason cannot be empty"))) else Checked(Reason(value), None)
  }

  // ----- secrets (lengths in bytes) -----

  datatype HashedPassword = HashedPassword(raw: string) {
    function String(): string { raw }
  }

  function NewHashedPassword(value: string): (r: Checked<HashedPassword>)
    ensures r.Accepted() <==> Utf8Len(value) >= 8
    ensures r.Accepted() ==> r.value.String() == value
    ensures !r.Accepted() ==> r.value.String() == "" && r.err == Some(Error("hashed password too short"))
  {
    if Utf8Len(value) < 8 then Checked(HashedPassword(""), Some(Error("hashed password too short")))
    else Checked(HashedPassword(value), None)
  }

  datatype Password = Password(raw: string)

  function NewPassword(raw: string): (r: Checked<Password>)
    ensures r.Accepted() <==> Utf8Len(raw) >= 8
    ensures r.Accepted() ==> r.value == Password(raw)
    ensures !r.Accepted() ==> r.value == Password("") && r.err == Some(Error("password must be at least 8 characters"))
  {
    if Utf8Len(raw) < 8 then Checked(Password(""), Some(Error("password must be at least 8 characters")))
    else Checked(Password(raw), None)
  }

  /** The byte bound is weaker than a rune bound: every text of at least 8 runes is long enough,
      and an ASCII text is long enough exactly when it has at least 8 runes. */
  lemma SecretLengthInBytes(value: string)
    ensures |value| >= 8 ==> NewHashedPassword(value).Accepted() && NewPassword(value).Accepted()
    ensures (forall i :: 0 <= i < |value| ==> value[i] as int < 0x80) ==>
      (NewHashedPassword(value).Accepted() <==> |value| >= 8)
  {
    Utf8LenAtLeastRunes(value);
  }

  /** Three 3-byte characters (9 bytes) pass although they are only three runes. */
  lemma SecretOfThreeKana()
    ensures NewHashedPassword("あいう").Accepted()
    ensures NewPassword("あいう").Accepted()
    ensures !NewPassword("abcdefg").Accepted()
  {
    assert Utf8Len("う") == 3 by { assert "う"[1..] == ""; }
    assert "いう"[1..] == "う";
    assert "あいう"[1..] == "いう";
  }

  // ----- scores -----

  datatype DensityScore = DensityScore(raw: int) {
    function Int(): int { raw }
  }

  function NewDensityScore(value: int): (r: Checked<DensityScore>)
    ensures r.Accepted() <==> value >= 0
    ensures r.Accepted() ==> r.value.Int() == value
    ensures !r.Accepted() ==> r.value.Int() == 0 && r.err == Some(Error("density score cannot be negative"))
  {
    if value < 0 then Checked(DensityScore(0), Some(Error("density score cannot be negative")))
    else Checked(DensityScore(value), None)
  }

  datatype ResonanceCount = ResonanceCount(raw: int) {
    function Int(): int { raw }
  }

  function NewResonanceCount(value: int): (r: Checked<ResonanceCount>)
    ensures r.Accepted() <==> value >= 0
    ensures r.Accepted() ==> r.value.Int() == value
    ensures !r.Accepted() ==> r.value.Int() == 0 && r.err == Some(Error("resonance count cannot be negative"))
  {
    if value < 0 then Checked(ResonanceCount(0), Some(Error("resonance count cannot be negative")))
    else Checked(ResonanceCount(value), None)
  }

  datatype TotalScore = TotalScore(raw: real) {
    function Float64(): real { raw }
  }

  function NewTotalScore(value: real): (r: Checked<TotalScore>)
    ensures r.Accepted() <==> value >= 0.0
    ensures r.Accepted() ==> r.value.Float64() == value
    ensures !r.Accepted() ==> r.value.Float64() == 0.0 && r.err == Some(Error("total score cannot be negative"))
  {
    if value < 0.0 then Checked(TotalScore(0.0), Some(Error("total score cannot be negative")))
    else Checked(TotalScore(value), None)
  }

  // ----- image URL -----

  datatype ImageURL = ImageURL(raw: string) {
    function String(): string { raw }
  }

  /** `NewImageURL`. Whether `url.ParseRequestURI` succeeds with a non-empty scheme and host is
      not modelled; it is the parameter `isAbsoluteURL`. */
  function NewImageURL(value: string, isAbsoluteURL: string -> bool): (r: Checked<ImageURL>)
    ensures r.Accepted() <==> isAbsoluteURL(value)
    ensures r.Accepted() ==> r.value.String() == value
    ensures !r.Accepted() ==> r.value.String() == "" && r.err == Some(Error("invalid image url"))
  {
    if !isAbsoluteURL(value) then Checked(ImageURL(""), Some(Error("invalid image url")))
    else Checked(ImageURL(value), None)
  }
}
