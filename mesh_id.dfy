/** The mesh-cell quantizer: a coordinate is mapped to the identifier of the 0.01 x 0.01 degree
    cell that contains it, written "MSH-" + 5 digits + "-" + 5 digits. */
module MeshIds {
  import opened Wrappers
  import opened Text

  /** Added to the latitude key (-9000..9000) so that the encoded field is never negative. */
  const LatOffset: int := 9000
  /** Added to the longitude key (-18000..18000) so that the encoded field is never negative. */
  const LngOffset: int := 18000
  const Tag: string := "MSH-"
  /** Width of each zero-padded numeric field. */
  const FieldWidth: nat := 5
  /** Length of every identifier the quantizer produces. */
  const MeshLength: nat := 15

  datatype MeshID = MeshID(text: string) {
    function String(): string { text }
  }

  predicate ValidLatitude(lat: real) { -90.0 <= lat <= 90.0 }
  predicate ValidLongitude(lng: real) { -180.0 <= lng <= 180.0 }

  /** The grid key of one axis: floor(x * 100), i.e. the index of the 0.01-degree band holding x. */
  function CellKey(x: real): int { (x * 100.0).Floor }

  lemma CellKeyBounds(x: real, bound: int)
    requires bound >= 0 && -(bound as real) <= x <= bound as real
    ensures -bound * 100 <= CellKey(x) <= bound * 100
  {
  }

  /** The identifier text for two already-offset fields. */
  function Encode(latField: nat, lngField: nat): (s: string)
    ensures |s| >= MeshLength && s[..4] == Tag
  {
    var a, b := ZeroPad(latField, FieldWidth), ZeroPad(lngField, FieldWidth);
    assert (Tag + a + "-" + b)[..4] == Tag;
    Tag + a + "-" + b
  }

  /** Reads the two cell keys back out of an identifier, undoing the offsets; None when the text
      is not of the form "MSH-ddddd-ddddd". */
  function Decode(s: string): (keys: Option<(int, int)>)
    ensures keys.Some? ==> |s| == MeshLength && s[..4] == Tag
    ensures keys.Some? ==> -LatOffset <= keys.value.0 < 100000 - LatOffset
    ensures keys.Some? ==> -LngOffset <= keys.value.1 < 100000 - LngOffset
  {
    if |s| == MeshLength && s[..4] == Tag && s[9] == '-' && AllDigits(s[4..9]) && AllDigits(s[10..])
    then
      ParseDecimalBound(s[4..9]);
      ParseDecimalBound(s[10..]);
      assert Pow10(5) == 100000;
      Some((ParseDecimal(s[4..9]) - LatOffset, ParseDecimal(s[10..]) - LngOffset))
    else None
  }

  /** Two fields of at most five digits are encoded in exactly 15 characters and decode back. */
  lemma EncodeRoundTrip(latField: nat, lngField: nat)
    requires latField < 100000 && lngField < 100000
    ensures |Encode(latField, lngField)| == MeshLength
    ensures Decode(Encode(latField, lngField)) == Some((latField - LatOffset, lngField - LngOffset))
  {
    assert Pow10(5) == 100000;
    ZeroPadRoundTrip(latField, FieldWidth);
    ZeroPadRoundTrip(lngField, FieldWidth);
    var a, b := ZeroPad(latField, FieldWidth), ZeroPad(lngField, FieldWidth);
    var s := Encode(latField, lngField);
    assert s == Tag + a + "-" + b;
    assert s[..4] == Tag;
    assert s[4..9] == a;
    assert s[9] == '-';
    assert s[10..] == b;
  }

  /** `NewMeshID`: checks latitude, then longitude, then quantizes both axes and renders the cell. */
  function NewMeshID(lat: real, lng: real): (r: Checked<MeshID>)
    ensures !ValidLatitude(lat) ==> r == Checked(MeshID(""), Some(Error("latitude out of range")))
    ensures ValidLatitude(lat) && !ValidLongitude(lng) ==> r == Checked(MeshID(""), Some(Error("longitude out of range")))
    ensures r.Accepted() <==> ValidLatitude(lat) && ValidLongitude(lng)
    ensures r.Accepted() ==> |r.value.String()| == MeshLength
    ensures r.Accepted() ==> Decode(r.value.String()) == Some((CellKey(lat), CellKey(lng)))
  {
    if lat < -90.0 || lat > 90.0 then Checked(MeshID(""), Some(Error("latitude out of range")))
    else if lng < -180.0 || lng > 180.0 then Checked(MeshID(""), Some(Error("longitude out of range")))
    else
      var latKey := CellKey(lat);
      var lngKey := CellKey(lng);
      CellKeyBounds(lat, 90);
      CellKeyBounds(lng, 180);
      EncodeRoundTrip(latKey + LatOffset, lngKey + LngOffset);
      Checked(MeshID(Encode(latKey + LatOffset, lngKey + LngOffset)), None)
  }

  /** Every accepted identifier is "MSH-" + five digits + "-" + five digits, and its two fields are
      the offset keys, which lie in [0, 18000] and [0, 36000]. */
  lemma MeshFormat(lat: real, lng: real)
    requires ValidLatitude(lat) && ValidLongitude(lng)
    ensures var s := NewMeshID(lat, lng).value.String();
      && |s| == MeshLength && s[..4] == "MSH-" && s[9] == '-'
      && AllDigits(s[4..9]) && AllDigits(s[10..])
      && 0 <= ParseDecimal(s[4..9]) <= 18000
      && 0 <= ParseDecimal(s[10..]) <= 36000
      && ParseDecimal(s[4..9]) == CellKey(lat) + 9000
      && ParseDecimal(s[10..]) == CellKey(lng) + 18000
  {
    CellKeyBounds(lat, 90);
    CellKeyBounds(lng, 180);
  }

  /** Two valid coordinates get the same identifier iff they lie in the same 0.01-degree cell. */
  lemma SameCellIffSameMesh(lat1: real, lng1: real, lat2: real, lng2: real)
    requires ValidLatitude(lat1) && ValidLongitude(lng1)
    requires ValidLatitude(lat2) && ValidLongitude(lng2)
    ensures NewMeshID(lat1, lng1) == NewMeshID(lat2, lng2)
        <==> CellKey(lat1) == CellKey(lat2) && CellKey(lng1) == CellKey(lng2)
  {
  }

  /** Concretely: two points a few metres apart inside one cell share an identifier, and the
      next cell to the north gets a different one. */
  lemma SameCellExample()
    ensures NewMeshID(35.6467, 139.7101) == NewMeshID(35.6401, 139.7199)
    ensures NewMeshID(35.6467, 139.7101) != NewMeshID(35.6501, 139.7101)
  {
    assert CellKey(35.6467) == 3564 == CellKey(35.6401);
    assert CellKey(139.7101) == 13971 == CellKey(139.7199);
    assert CellKey(35.6501) == 3565;
    SameCellIffSameMesh(35.6467, 139.7101, 35.6501, 139.7101);
  }
}
