/** `image_processing.py`: which files the object detector accepts, and
    the location and timestamp `get_image_metadata` takes from a photo's
    Exif data. Opening the file and decoding its Exif block are done by the
    imaging library; the model starts from the decoded items. */
module ImageProcessing {
  import opened Wrappers
  import opened Text
  import opened Decimal
  import LlamaTextProcessing
  import TextProcessing

  /*** validate_path ***/

  /** The extensions of `validate_path`. */
  const ValidExtensions: set<string> := {"webp", "dng", "tif", "tiff", "mpo", "jpg", "bmp", "heic", "png", "jpeg", "pfm"}

  /** `validate_path`: the text after the last dot (the whole path when it
      has none) must be one of the image extensions, compared
      case-sensitively. */
  function ValidatePath(path: string): bool {
    AfterLast(path, '.') in ValidExtensions
  }

  /** A name with an extension is accepted exactly when the extension is
      listed. Each module states this for its own list, as each source
      file has its own copy of `validate_path`. */
  lemma ValidatePathOfName(stem: string, ext: string)
    requires Lacks(ext, '.')
    ensures ValidatePath(stem + "." + ext) <==> ext in ValidExtensions
  {
    AfterLastOfSuffix(stem, '.', ext);
  }

  /** The image check accepts exactly the image half of the older check:
      every path it accepts the older one accepts, and the video types the
      older one also accepts are refused here. */
  lemma ValidatePathImagesOnly(path: string)
    ensures ValidatePath(path) ==> LlamaTextProcessing.ValidatePath(path)
    ensures ValidatePath(path) <==> AfterLast(path, '.') in LlamaTextProcessing.ImageTypes
    ensures AfterLast(path, '.') in LlamaTextProcessing.VideoTypes ==> !ValidatePath(path)
  {
    var e := AfterLast(path, '.');
    assert ValidExtensions == LlamaTextProcessing.ImageTypes;
    if e in LlamaTextProcessing.VideoTypes {
      VideoTypeRefused(e);
    }
  }

  /** No video type of the older check is an image extension. */
  lemma VideoTypeRefused(e: string)
    requires e in LlamaTextProcessing.VideoTypes
    ensures e !in ValidExtensions
  {
    if |e| == 2 {
      assert e == "ts";
    } else if |e| == 4 {
      assert e == "mpeg" || e == "webm";
    } else {
      assert e[0] != 'w' || e == "wmv";
    }
  }

  /*** Exif values ***/

  /** A value of the GPS directory: a reference letter such as `N`, a
      tuple of numbers such as degrees, minutes, seconds, or anything
      else. */
  datatype GpsValue = GpsText(text: string) | GpsNumbers(numbers: seq<real>) | GpsOther

  /** A value of the Exif directory: the GPS directory as its
      `(tag id, value)` items in dictionary order, a string, or another
      value together with its Python truthiness. */
  datatype ExifValue = GpsIfd(items: seq<(int, GpsValue)>) | ExifText(text: string) | ExifOther(truthy: bool)

  /** Python truthiness: an empty dictionary or string is false. */
  predicate Truthy(v: ExifValue) {
    match v
    case GpsIfd(items) => items != []
    case ExifText(s) => s != []
    case ExifOther(t) => t
  }

  /** `location.values()`, in order. */
  function Values(items: seq<(int, GpsValue)>): (r: seq<GpsValue>)
    ensures |r| == |items| && forall i :: 0 <= i < |items| ==> r[i] == items[i].1
  {
    if items == [] then [] else [items[0].1] + Values(items[1..])
  }

  /*** Degrees, minutes, seconds ***/

  /** `dms[0] + dms[1] / 60 + dms[2] / 3600`: indexing a short tuple or
      string raises `IndexError`; dividing a string, or indexing anything
      that is neither, raises `TypeError`. */
  function DmsToDegrees(dms: GpsValue): (r: Result<real, Raised>)
    ensures r.Ok? <==> dms.GpsNumbers? && |dms.numbers| >= 3
    ensures r.Err? ==> r.error == (if (dms.GpsNumbers? && |dms.numbers| < 3) || (dms.GpsText? && |dms.text| < 2) then IndexError else TypeError)
  {
    match dms
    case GpsNumbers(xs) => if |xs| < 3 then Err(IndexError) else Ok(xs[0] + xs[1] / 60.0 + xs[2] / 3600.0)
    case GpsText(s) => if |s| < 2 then Err(IndexError) else Err(TypeError)
    case GpsOther => Err(TypeError)
  }

  /** One coordinate: the degrees, negated when the reference is the
      southern (or western) letter `negative`. */
  function Coordinate(ref: GpsValue, dms: GpsValue, negative: string): (r: Result<real, Raised>)
    ensures r.Err? <==> DmsToDegrees(dms).Err?
    ensures r.Ok? ==> r.value == (if ref == GpsText(negative) then -DmsToDegrees(dms).value else DmsToDegrees(dms).value)
  {
    var degrees :- DmsToDegrees(dms);
    Ok(if ref == GpsText(negative) then -degrees else degrees)
  }

  /** Whether the float the coordinate holds is `-0.0`: `*= -1` on a zero
      angle gives a zero with a minus sign. The sum of the degrees,
      minutes and seconds is taken to be `+0.0` when it is zero. */
  function NegatedZero(ref: GpsValue, dms: GpsValue, negative: string): (z: bool)
    ensures z <==> Coordinate(ref, dms, negative) == Ok(0.0) && ref == GpsText(negative)
  {
    ref == GpsText(negative) && DmsToDegrees(dms) == Ok(0.0)
  }

  /** Degrees, minutes and seconds give the angle in degrees. */
  lemma CoordinateValue(ref: GpsValue, d: real, m: real, s: real, negative: string)
    ensures Coordinate(ref, GpsNumbers([d, m, s]), negative) ==
      Ok(if ref == GpsText(negative) then -(d + m / 60.0 + s / 3600.0) else d + m / 60.0 + s / 3600.0)
  {
  }

  /** For non-negative degrees, minutes and seconds, the coordinate is
      negative exactly when the reference is the negative letter and the
      angle is not zero; any other reference leaves it non-negative. */
  lemma CoordinateSign(ref: GpsValue, dms: GpsValue, negative: string)
    requires dms.GpsNumbers? && |dms.numbers| >= 3
    requires dms.numbers[0] >= 0.0 && dms.numbers[1] >= 0.0 && dms.numbers[2] >= 0.0
    ensures Coordinate(ref, dms, negative).Ok?
    ensures Coordinate(ref, dms, negative).value < 0.0 <==> ref == GpsText(negative) && DmsToDegrees(dms).value > 0.0
    ensures ref != GpsText(negative) ==> Coordinate(ref, dms, negative).value >= 0.0
  {
  }

  /*** Rounding and formatting ***/

  /** Round half to even, as Python's `round` does, on exact values. */
  function RoundHalfEven(y: real): (k: int)
    ensures -0.5 <= k as real - y <= 0.5
  {
    var f := y.Floor;
    var frac := y - f as real;
    if frac < 0.5 then f
    else if frac > 0.5 then f + 1
    else if f % 2 == 0 then f
    else f + 1
  }

  lemma RoundHalfEvenProperties(y: real)
    ensures y == y.Floor as real ==> RoundHalfEven(y) == y.Floor
    ensures y - y.Floor as real == 0.5 ==> RoundHalfEven(y) % 2 == 0
    ensures y - y.Floor as real != 0.5 ==> -0.5 < RoundHalfEven(y) as real - y < 0.5
  {
  }

  /** `round(x, 4)` as the number of ten-thousandths. */
  function RoundFourPlaces(x: real): int {
    RoundHalfEven(x * 10000.0)
  }

  /** The value of `round(x, 4)`. */
  function Rounded(x: real): real {
    RoundFourPlaces(x) as real / 10000.0
  }

  /** Rounding moves a coordinate by at most half a ten-thousandth of a
      degree. */
  lemma RoundedClose(x: real)
    ensures -0.00005 <= Rounded(x) - x <= 0.00005
  {
    var k := RoundFourPlaces(x);
    assert -0.5 <= k as real - x * 10000.0 <= 0.5;
    assert Rounded(x) - x == (k as real - x * 10000.0) / 10000.0;
  }

  /** `f'{round(x, 4)}'`: the repr of the rounded value. A float with a
      minus sign that rounds to zero keeps the sign and prints as `-0.0`:
      a negative value, or a zero that is `-0.0` (`negZero`). */
  function FormatRounded(x: real, negZero: bool): (r: string)
    ensures r != [] && forall i :: 0 <= i < |r| ==> r[i] == '-' || IsDigitOrDot(r[i])
  {
    var k := RoundFourPlaces(x);
    if k == 0 && (x < 0.0 || (x == 0.0 && negZero)) then "-0.0" else FormatFourPlaces(k)
  }

  /** `float()` reads the printed value back as the rounded value. */
  lemma FormatRoundedRoundTrip(x: real, negZero: bool)
    ensures ParseFloat(FormatRounded(x, negZero)) == Some(Rounded(x))
  {
    var k := RoundFourPlaces(x);
    if k == 0 && (x < 0.0 || (x == 0.0 && negZero)) {
      assert "-0.0"[1..] == "0.0";
      assert IndexOf("0.0", '.') == Some(1);
      assert "0.0"[..1] == "0" && "0.0"[2..] == "0";
    } else {
      FormatFourPlacesRoundTrip(k);
    }
  }

  /** `f'{lat},{lon}'` of the rounded coordinates. */
  function FormatLocation(lat: real, latNegZero: bool, lon: real, lonNegZero: bool): string {
    FormatRounded(lat, latNegZero) + "," + FormatRounded(lon, lonNegZero)
  }

  lemma FormatRoundedNoComma(x: real, negZero: bool)
    ensures Lacks(FormatRounded(x, negZero), ',')
  {
  }

  /** What `get_image_metadata` stores is what `search` reads: splitting
      the location at its comma and reading both halves with `float()`
      gives the two rounded coordinates. */
  lemma FormatLocationRoundTrip(lat: real, latNegZero: bool, lon: real, lonNegZero: bool)
    ensures TextProcessing.PhotoLocation(FormatLocation(lat, latNegZero, lon, lonNegZero)) == Ok((Rounded(lat), Rounded(lon)))
  {
    var a, b := FormatRounded(lat, latNegZero), FormatRounded(lon, lonNegZero);
    FormatRoundedNoComma(lat, latNegZero);
    FormatRoundedNoComma(lon, lonNegZero);
    SplitTwo(a, ',', b);
    assert a + "," + b == a + [','] + b;
    FormatRoundedRoundTrip(lat, latNegZero);
    FormatRoundedRoundTrip(lon, lonNegZero);
  }

  /*** The GPS directory ***/

  /** Lines 75 to 98 of `get_image_metadata`: an empty (or false) location
      gives `None`. The values of a GPS directory with six or four entries
      are read positionally as latitude reference, latitude, longitude
      reference, longitude; with any other number of entries the names
      stay unbound and reading them raises `UnboundLocalError`. A value
      that is not a dictionary has no `values()` (`AttributeError`). */
  function LocationText(location: ExifValue): (r: Result<Option<string>, Raised>)
    ensures !Truthy(location) ==> r == Ok(None)
  {
    if !Truthy(location) then Ok(None)
    else match location
      case GpsIfd(items) =>
        var vs := Values(items);
        if |vs| != 6 && |vs| != 4 then Err(UnboundLocalError)
        else
          var lat :- Coordinate(vs[0], vs[1], "S");
          var lon :- Coordinate(vs[2], vs[3], "W");
          Ok(Some(FormatLocation(lat, NegatedZero(vs[0], vs[1], "S"), lon, NegatedZero(vs[2], vs[3], "W"))))
      case _ => Err(AttributeError)
  }

  /** When the GPS directory is read, what fails and what comes out. */
  lemma LocationTextOutcome(items: seq<(int, GpsValue)>)
    requires items != []
    ensures |items| != 6 && |items| != 4 ==> LocationText(GpsIfd(items)) == Err(UnboundLocalError)
    ensures |items| == 6 || |items| == 4 ==>
      var lat := Coordinate(items[0].1, items[1].1, "S");
      var lon := Coordinate(items[2].1, items[3].1, "W");
      LocationText(GpsIfd(items)) ==
        if lat.Err? then Err(lat.error)
        else if lon.Err? then Err(lon.error)
        else Ok(Some(FormatLocation(lat.value, NegatedZero(items[0].1, items[1].1, "S"),
                                    lon.value, NegatedZero(items[2].1, items[3].1, "W"))))
  {
  }

  /** A four-entry GPS directory of references and degree-minute-second
      triples gives the signed, rounded coordinates, which `search` reads
      back. */
  lemma LocationTextRoundTrip(latRef: GpsValue, lat: seq<real>, lonRef: GpsValue, lon: seq<real>, t: seq<int>)
    requires |lat| == 3 && |lon| == 3 && |t| == 4
    ensures var r := LocationText(GpsIfd([(t[0], latRef), (t[1], GpsNumbers(lat)), (t[2], lonRef), (t[3], GpsNumbers(lon))]));
      && r.Ok? && r.value.Some?
      && TextProcessing.PhotoLocation(r.value.value) ==
        Ok((Rounded(Coordinate(latRef, GpsNumbers(lat), "S").value), Rounded(Coordinate(lonRef, GpsNumbers(lon), "W").value)))
  {
    var items := [(t[0], latRef), (t[1], GpsNumbers(lat)), (t[2], lonRef), (t[3], GpsNumbers(lon))];
    var x, y := Coordinate(latRef, GpsNumbers(lat), "S").value, Coordinate(lonRef, GpsNumbers(lon), "W").value;
    LocationTextOutcome(items);
    FormatLocationRoundTrip(x, NegatedZero(latRef, GpsNumbers(lat), "S"), y, NegatedZero(lonRef, GpsNumbers(lon), "W"));
  }

  /** A zero angle under the southern letter is stored as `-0.0`, the
      sign `*= -1` gives the zero, and `search` reads it back as zero. */
  lemma LocationTextNegatedZero(t: seq<int>, lonRef: GpsValue, lon: seq<real>)
    requires |t| == 4 && |lon| == 3
    ensures var r := LocationText(GpsIfd([(t[0], GpsText("S")), (t[1], GpsNumbers([0.0, 0.0, 0.0])), (t[2], lonRef), (t[3], GpsNumbers(lon))]));
      && r.Ok? && r.value.Some?
      && r.value.value[..5] == "-0.0,"
      && TextProcessing.PhotoLocation(r.value.value).Ok? && TextProcessing.PhotoLocation(r.value.value).value.0 == 0.0
  {
    var items := [(t[0], GpsText("S")), (t[1], GpsNumbers([0.0, 0.0, 0.0])), (t[2], lonRef), (t[3], GpsNumbers(lon))];
    var y := Coordinate(lonRef, GpsNumbers(lon), "W").value;
    var nz := NegatedZero(lonRef, GpsNumbers(lon), "W");
    LocationTextOutcome(items);
    assert NegatedZero(GpsText("S"), GpsNumbers([0.0, 0.0, 0.0]), "S");
    assert FormatRounded(0.0, true) == "-0.0";
    LocationTextRoundTrip(GpsText("S"), [0.0, 0.0, 0.0], lonRef, lon, t);
  }

  /** The directory `{1: 'S', 2: (0, 0, 0), 3: 'E', 4: (1, 0, 0)}` is
      stored as `-0.0,1.0`. */
  lemma LocationTextSouthernZero()
    ensures LocationText(GpsIfd([(1, GpsText("S")), (2, GpsNumbers([0.0, 0.0, 0.0])), (3, GpsText("E")), (4, GpsNumbers([1.0, 0.0, 0.0]))]))
      == Ok(Some("-0.0,1.0"))
  {
    var items := [(1, GpsText("S")), (2, GpsNumbers([0.0, 0.0, 0.0])), (3, GpsText("E")), (4, GpsNumbers([1.0, 0.0, 0.0]))];
    LocationTextOutcome(items);
    var lat, lon := Coordinate(GpsText("S"), GpsNumbers([0.0, 0.0, 0.0]), "S"), Coordinate(GpsText("E"), GpsNumbers([1.0, 0.0, 0.0]), "W");
    assert lat == Ok(0.0) && lon == Ok(1.0);
    assert NegatedZero(GpsText("S"), GpsNumbers([0.0, 0.0, 0.0]), "S");
    assert !NegatedZero(GpsText("E"), GpsNumbers([1.0, 0.0, 0.0]), "W");
    FormatRoundedOne();
    assert FormatRounded(0.0, true) == "-0.0";
    assert "-0.0" + "," + "1.0" == "-0.0,1.0";
  }

  lemma FormatRoundedOne()
    ensures FormatRounded(1.0, false) == "1.0"
  {
    assert RoundFourPlaces(1.0) == 10000;
    assert FourDigits(0) == "0000";
    assert DropTrailingZeros("0000") == [];
    assert FractionDigits(0) == "0";
    assert NatToString(1) == "1";
  }

  /*** get_image_metadata ***/

  /** `timestamp if timestamp else None`. */
  function TimestampOf(timestamp: ExifValue): Option<ExifValue> {
    if Truthy(timestamp) then Some(timestamp) else None
  }

  /** The value of the last item whose tag is named `name`, or `init` when
      there is none: the loop's reassignments leave the last one. */
  function LastNamed(items: seq<(int, ExifValue)>, names: map<int, string>, name: string, init: ExifValue): (r: ExifValue)
    requires forall i :: 0 <= i < |items| ==> items[i].0 in names
    ensures (forall i :: 0 <= i < |items| ==> names[items[i].0] != name) ==> r == init
    decreases |items|
  {
    if items == [] then init
    else
      var last := items[|items| - 1];
      if names[last.0] == name then last.1
      else LastNamed(items[..|items| - 1], names, name, init)
  }

  /** The last item named `name` is the one that counts. */
  lemma {:induction false} LastNamedIsLast(items: seq<(int, ExifValue)>, names: map<int, string>, name: string, init: ExifValue, k: nat)
    requires forall i :: 0 <= i < |items| ==> items[i].0 in names
    requires k < |items| && names[items[k].0] == name
    requires forall j :: k < j < |items| ==> names[items[j].0] != name
    ensures LastNamed(items, names, name, init) == items[k].1
    decreases |items|
  {
    if k < |items| - 1 {
      var init' := items[..|items| - 1];
      LastNamedIsLast(init', names, name, init, k);
    }
  }

  /** What `get_image_metadata` returns: `(None, None)` without Exif data;
      `KeyError` when an item's tag id has no name; otherwise the location
      text and the timestamp (the last `GPSInfo` and `DateTime` items). */
  function Metadata(exif: Option<seq<(int, ExifValue)>>, names: map<int, string>): Result<(Option<string>, Option<ExifValue>), Raised> {
    match exif
    case None => Ok((None, None))
    case Some(items) =>
      if items == [] then Ok((None, None))
      else if exists i :: 0 <= i < |items| && items[i].0 !in names then Err(KeyError)
      else
        var location := LastNamed(items, names, "GPSInfo", GpsIfd([]));
        var timestamp := LastNamed(items, names, "DateTime", ExifText(""));
        var text :- LocationText(location);
        Ok((text, TimestampOf(timestamp)))
  }

  /** `get_image_metadata(filepath)` from the decoded Exif items (`None`
      when the image has no `_getexif` or it returns nothing) and the
      library's table of tag names: the loop keeps the last `GPSInfo` and
      `DateTime` values, then the location is converted. */
  method GetImageMetadata(exif: Option<seq<(int, ExifValue)>>, names: map<int, string>)
    returns (r: Result<(Option<string>, Option<ExifValue>), Raised>)
    ensures r == Metadata(exif, names)
  {
    if exif.None? {
      return Ok((None, None));
    }
    var items := exif.value;
    var location: ExifValue := GpsIfd([]);
    var timestamp: ExifValue := ExifText("");
    if items == [] {
      return Ok((None, None));
    }
    var i := 0;
    while i < |items|
      invariant 0 <= i <= |items|
      invariant forall j :: 0 <= j < i ==> items[j].0 in names
      invariant location == LastNamed(items[..i], names, "GPSInfo", GpsIfd([]))
      invariant timestamp == LastNamed(items[..i], names, "DateTime", ExifText(""))
    {
      var (key, value) := items[i];
      if key !in names {
        return Err(KeyError);
      }
      assert items[..i + 1][..i] == items[..i];
      if names[key] == "GPSInfo" {
        location := value;
      }
      if names[key] == "DateTime" {
        timestamp := value;
      }
      i := i + 1;
    }
    assert items[..i] == items;
    var text := LocationText(location);
    if text.Err? {
      return Err(text.error);
    }
    r := Ok((text.value, TimestampOf(timestamp)));
  }

  /** Without Exif data, or with an empty directory, both parts are
      `None`. */
  lemma MetadataWithoutExif(names: map<int, string>)
    ensures Metadata(None, names) == Ok((None, None))
    ensures Metadata(Some([]), names) == Ok((None, None))
  {
  }

  /** Without a `GPSInfo` item the location is `None`; without a
      `DateTime` item, or with an empty one, the timestamp is `None`. */
  lemma MetadataMissingParts(items: seq<(int, ExifValue)>, names: map<int, string>)
    requires items != [] && forall i :: 0 <= i < |items| ==> items[i].0 in names
    ensures (forall i :: 0 <= i < |items| ==> names[items[i].0] != "GPSInfo") ==>
      Metadata(Some(items), names) == Ok((None, TimestampOf(LastNamed(items, names, "DateTime", ExifText("")))))
    ensures Metadata(Some(items), names).Ok? && (forall i :: 0 <= i < |items| ==> names[items[i].0] != "DateTime") ==>
      Metadata(Some(items), names).value.1 == None
  {
  }

  /** An item whose tag id the table does not name makes the whole call
      raise `KeyError`. */
  lemma MetadataUnknownTag(items: seq<(int, ExifValue)>, names: map<int, string>, k: nat)
    requires k < |items| && items[k].0 !in names
    ensures Metadata(Some(items), names) == Err(KeyError)
  {
  }
}
