/** The upload endpoint `upload_image`: it decodes the image carried in a
    data URL, settles on a place name (the client's, or a server-side
    reverse-geocoding lookup, or a sentinel), turns that name into a file
    name, and writes the image and a JSON sidecar into `captured_photos`.

    The base64 decoder and the geocoder are parameters; the clock is the
    `now` string (`%Y%m%d_%H%M%S`).  The writes and the lookup are not
    performed: `UploadImage` returns them, in order, as a list of effects. */
module Upload {
  import opened Wire
  import opened PyStr

  const UnknownLocation: string := "Unknown Location"
  const LookupFailed: string := "Error fetching location"
  const UploadFolder: string := "captured_photos"
  const MaxSafeLength: nat := 60
  /** The fixed parts of the response text around the file and place names. */
  const ConfirmPrefix: string := "\U{2705} Photo saved as "
  const ConfirmMiddle: string := "\\n\U{1F4CD} Location: "

  newtype byte = x: int | 0 <= x < 256

  /** The exceptions that end a request before anything is written:
      `KeyError`/`AttributeError` for a missing image, `IndexError` for a
      data URL without a comma, `binascii.Error` for bad base64. */
  datatype UploadError = MissingImage | NoComma | BadBase64

  /** What the reverse-geocoding call comes to: it raised (network error,
      a body that is not JSON, ...), or it gave a JSON object that may or
      may not carry `display_name`. */
  datatype Geocoded = Raised | Answer(displayName: Option<string>)

  /** The sidecar record written as JSON. */
  datatype Meta = Meta(timestamp: string, latitude: Coord, longitude: Coord, locationName: string)

  /** What the handler does to the outside world, in order. */
  datatype Effect =
    | Geocode(lat: Coord, lon: Coord)
    | WriteImage(path: string, bytes: seq<byte>)
    | WriteMeta(path: string, meta: Meta)

  // ---------------------------------------------------------------------
  // Image payload

  /** `image.split(',')[1]`: the text after the first comma, up to the
      second comma or the end; an `IndexError` when there is no comma. */
  function ExtractPayload(image: string): (r: Result<string, UploadError>)
    ensures r.Failure? <==> ',' !in image
    ensures r.Failure? ==> r.error == NoComma
    ensures r.Success? ==>
      var rest := image[FirstIndex(image, ',') + 1..];
      r.value == rest[..FirstIndex(rest, ',')] && ',' !in r.value
  {
    var parts := Split(image, ',');
    SplitAtFirst(image, ',');
    if |parts| < 2 then Failure(NoComma)
    else
      SplitAtFirst(image[FirstIndex(image, ',') + 1..], ',');
      Success(parts[1])
  }

  /** `base64.b64decode(data['image'].split(',')[1])` with the decoder as
      a parameter (`None` when it raises). */
  function DecodeImage(image: Option<string>, decode: string -> Option<seq<byte>>): (r: Result<seq<byte>, UploadError>)
    ensures r == Failure(MissingImage) <==> image.None?
    ensures image.Some? && ',' !in image.value ==> r == Failure(NoComma)
    ensures image.Some? && ',' in image.value ==>
      var bytes := decode(ExtractPayload(image.value).value);
      if bytes.Some? then r == Success(bytes.value) else r == Failure(BadBase64)
  {
    if image.None? then Failure(MissingImage)
    else
      var payload := ExtractPayload(image.value);
      if payload.Failure? then Failure(payload.error)
      else
        var bytes := decode(payload.value);
        if bytes.None? then Failure(BadBase64) else Success(bytes.value)
  }

  // ---------------------------------------------------------------------
  // Place name

  /** `data.get('location_name') or "Unknown Location"` */
  function ClientName(name: Option<string>): (r: string)
    // never empty: the client's own non-empty name, or the default
    ensures r != ""
    ensures r == UnknownLocation || (name.Some? && r == name.value)
    ensures name.Some? && name.value != "" ==> r == name.value
  {
    if name.Some? && name.value != "" then name.value else UnknownLocation
  }

  /** The handler falls back to a server-side lookup exactly when the
      name is still the default and both coordinates are truthy. */
  predicate NeedsLookup(name: Option<string>, lat: Coord, lon: Coord)
    // stated on the request fields: no name, an empty one, or the literal default
    ensures NeedsLookup(name, lat, lon) <==>
      (name.None? || name.value == "" || name.value == UnknownLocation) &&
      lat.Number? && lat.value != 0.0 && lon.Number? && lon.value != 0.0
  {
    ClientName(name) == UnknownLocation && Truthy(lat) && Truthy(lon)
  }

  /** The place name the handler ends up with. */
  function EffectiveLocation(name: Option<string>, lat: Coord, lon: Coord,
                             geocode: (Coord, Coord) -> Geocoded): (r: string)
    // a non-empty client name other than the default is kept verbatim
    ensures name.Some? && name.value != "" && name.value != UnknownLocation ==> r == name.value
    // no usable client name and a falsy coordinate: the default
    ensures (name.None? || name.value == "") && !(Truthy(lat) && Truthy(lon)) ==> r == UnknownLocation
    // the lookup decides only when it runs, in its three outcomes
    ensures !NeedsLookup(name, lat, lon) ==> r == ClientName(name)
    ensures NeedsLookup(name, lat, lon) && geocode(lat, lon).Raised? ==> r == LookupFailed
    ensures NeedsLookup(name, lat, lon) && geocode(lat, lon) == Answer(None) ==> r == UnknownLocation
    ensures NeedsLookup(name, lat, lon) && geocode(lat, lon).Answer? && geocode(lat, lon).displayName.Some? ==>
      r == geocode(lat, lon).displayName.value
  {
    if NeedsLookup(name, lat, lon) then
      match geocode(lat, lon)
      case Raised => LookupFailed
      case Answer(d) => if d.Some? then d.value else UnknownLocation
    else
      ClientName(name)
  }

  /** When no lookup is due, which geocoder is plugged in makes no
      difference: the handler never calls it. */
  lemma GeocoderIgnoredUnlessNeeded(name: Option<string>, lat: Coord, lon: Coord,
                                    g1: (Coord, Coord) -> Geocoded, g2: (Coord, Coord) -> Geocoded)
    requires !NeedsLookup(name, lat, lon)
    ensures EffectiveLocation(name, lat, lon, g1) == EffectiveLocation(name, lat, lon, g2)
  {
  }

  /** A coordinate of exactly zero counts as missing: with no client
      name, a zero latitude or longitude skips the lookup and gives the
      default, whatever the geocoder would have answered. */
  lemma ZeroCoordinateSkipsLookup(lat: Coord, lon: Coord, geocode: (Coord, Coord) -> Geocoded)
    requires lat == Number(0.0) || lon == Number(0.0)
    ensures !NeedsLookup(None, lat, lon)
    ensures EffectiveLocation(None, lat, lon, geocode) == UnknownLocation
  {
  }

  // ---------------------------------------------------------------------
  // File names

  /** The character `replace(',', '_').replace(' ', '_')` puts in place of `c`. */
  function SafeChar(c: char): char
  {
    if c == ',' || c == ' ' then '_' else c
  }

  /** `location_name.replace(',', '_').replace(' ', '_')[:60]` */
  function Sanitize(place: string): (r: string)
    ensures |r| == if |place| <= MaxSafeLength then |place| else MaxSafeLength
    ensures forall i :: 0 <= i < |r| ==> r[i] == SafeChar(place[i])
    ensures ',' !in r && ' ' !in r
  {
    Take(ReplaceChar(ReplaceChar(place, ',', '_'), ' ', '_'), MaxSafeLength)
  }

  /** A name that is already safe and short enough is used unchanged. */
  lemma {:induction false} SanitizeKeepsSafeNames(place: string)
    requires ',' !in place && ' ' !in place && |place| <= MaxSafeLength
    ensures Sanitize(place) == place
  {
    var r := Sanitize(place);
    assert |r| == |place|;
    forall i | 0 <= i < |r| ensures r[i] == place[i] {
      assert place[i] != ',' && place[i] != ' ';
    }
  }

  /** `f"photo_{timestamp}_{safe_location}.png"` */
  function FileName(ts: string, place: string): (r: string)
    // the place part is at most 60 characters long, whatever the name
    ensures |ts| + 11 <= |r| <= |ts| + 71
    ensures r[..6] == "photo_" && r[|r| - 4..] == ".png"
    ensures |place| <= MaxSafeLength ==> |r| == |ts| + |place| + 11
  {
    "photo_" + ts + "_" + Sanitize(place) + ".png"
  }

  /** `os.path.join(UPLOAD_FOLDER, filename)` without its `.png` */
  function BasePath(ts: string, place: string): string
  {
    UploadFolder + "/" + "photo_" + ts + "_" + Sanitize(place)
  }

  /** `os.path.join(UPLOAD_FOLDER, filename)` */
  function ImagePath(ts: string, place: string): string
  {
    UploadFolder + "/" + FileName(ts, place)
  }

  /** `filepath.replace('.png', '.json')`: every `.png` in the path, not
      only the extension, becomes `.json`. */
  function MetaPath(ts: string, place: string): string
  {
    ReplaceAll(ImagePath(ts, place), ".png", ".json")
  }

  lemma PngHeadUnique()
    ensures HeadUnique(".png")
  {
    var p := ".png";
    assert p[1] == 'p' && p[2] == 'n' && p[3] == 'g';
  }

  /** The image path is the base path with `.png` after it. */
  lemma ImagePathIsBasePng(ts: string, place: string)
    ensures ImagePath(ts, place) == BasePath(ts, place) + ".png"
  {
  }

  /** The image and the sidecar paths are the same pieces of text joined by
      `.png` in the one and by `.json` in the other, and no piece holds a
      `.png`: the two differ exactly where the image path says `.png`. */
  lemma SidecarReplacesEveryPng(ts: string, place: string)
    ensures var ps := Pieces(ImagePath(ts, place), ".png");
      Join(ps, ".png") == ImagePath(ts, place) &&
      Join(ps, ".json") == MetaPath(ts, place) &&
      forall i :: 0 <= i < |ps| ==> !Occurs(".png", ps[i])
  {
    ReplaceAllByPieces(ImagePath(ts, place), ".png", ".json");
  }

  /** The extension is always among the replaced `.png`s, so the sidecar
      path ends in `.json` and never coincides with the image path. */
  lemma {:induction false} SidecarEndsInJson(ts: string, place: string)
    ensures var m := MetaPath(ts, place);
      m == ReplaceAll(BasePath(ts, place), ".png", ".json") + ".json" &&
      m != ImagePath(ts, place)
  {
    PngHeadUnique();
    ImagePathIsBasePng(ts, place);
    ReplaceAllTrailing(BasePath(ts, place), ".png", ".json");
    var m := MetaPath(ts, place);
    var im := ImagePath(ts, place);
    assert m[|m| - 1] == 'n' && im[|im| - 1] == 'g';
  }

  /** When the base path holds no `.png`, the sidecar is `<base>.json`. */
  lemma SidecarIsBaseJson(ts: string, place: string)
    requires !Occurs(".png", BasePath(ts, place))
    ensures MetaPath(ts, place) == BasePath(ts, place) + ".json"
  {
    SidecarEndsInJson(ts, place);
    ReplaceAllAbsent(BasePath(ts, place), ".png", ".json");
  }

  /** Because every `.png` is rewritten, two uploads in the same second
      whose place names are `x.png` and `x.json` write two different images
      but one and the same sidecar, the second overwriting the first. */
  lemma SidecarShared(ts: string)
    ensures ImagePath(ts, "x.png") != ImagePath(ts, "x.json")
    ensures MetaPath(ts, "x.png") == MetaPath(ts, "x.json")
  {
    SidecarOfPngName(ts);
    SidecarOfJsonName(ts);
    ImagePathIsBasePng(ts, "x.png");
    ImagePathIsBasePng(ts, "x.json");
    BaseOfSafeName(ts, "x.png");
    BaseOfSafeName(ts, "x.json");
  }

  /** The directory and file-name prefix shared by all uploads in one second. */
  function NamePrefix(ts: string): string
  {
    UploadFolder + "/" + "photo_" + ts + "_"
  }

  lemma BaseOfSafeName(ts: string, place: string)
    requires ',' !in place && ' ' !in place && |place| <= MaxSafeLength
    ensures BasePath(ts, place) == NamePrefix(ts) + place
  {
    SanitizeKeepsSafeNames(place);
  }

  /** The sidecar for the place name `x.png`. */
  lemma SidecarOfPngName(ts: string)
    ensures MetaPath(ts, "x.png") == ReplaceAll(NamePrefix(ts), ".png", ".json") + "x" + ".json" + ".json"
  {
    var f := NamePrefix(ts);
    BaseOfSafeName(ts, "x.png");
    assert BasePath(ts, "x.png") == (f + "x") + ".png";
    SidecarEndsInJson(ts, "x.png");
    PngHeadUnique();
    ReplaceAllTrailing(f + "x", ".png", ".json");
    assert !OccursAt(".png", "x", 0) && !OccursAt(".png", "x", 1);
    ReplaceAllInertSuffix(f, "x", ".png", ".json");
  }

  lemma NoPngInJsonName()
    ensures !Occurs(".png", "x.json")
  {
    var w := "x.json";
    forall k: nat | k <= |w| ensures !OccursAt(".png", w, k) {
      if k + 4 <= |w| {
        assert w[k..k + 4][0] == w[k] && w[k..k + 4][1] == w[k + 1];
        assert w[k] != '.' || w[k + 1] != 'p';
      }
    }
  }

  /** The sidecar for the place name `x.json`. */
  lemma SidecarOfJsonName(ts: string)
    ensures MetaPath(ts, "x.json") == ReplaceAll(NamePrefix(ts), ".png", ".json") + "x.json" + ".json"
  {
    var f := NamePrefix(ts);
    BaseOfSafeName(ts, "x.json");
    SidecarEndsInJson(ts, "x.json");
    NoPngInJsonName();
    ReplaceAllInertSuffix(f, "x.json", ".png", ".json");
  }

  /** `[:60]` drops the rest of a long place name before anything else
      looks at it: a `.png` or a `/` after the first 60 characters never
      reaches the path. */
  lemma SanitizeIgnoresTail(place: string)
    requires |place| >= MaxSafeLength
    ensures Sanitize(place) == Sanitize(place[..MaxSafeLength])
  {
    var a, b := Sanitize(place), Sanitize(place[..MaxSafeLength]);
    forall i | 0 <= i < |a| ensures a[i] == b[i] {
      assert place[..MaxSafeLength][i] == place[i];
    }
  }

  /** Sanitising is not one-to-one: `A,B` and `A B` are different place
      names that are given the same file pair. */
  lemma {:induction false} SanitizeMerges(ts: string)
    ensures ImagePath(ts, "A,B") == ImagePath(ts, "A B")
  {
    assert Sanitize("A,B") == "A_B";
    assert Sanitize("A B") == "A_B";
  }

  // ---------------------------------------------------------------------
  // The handler

  /** The response body `f"✅ Photo saved as {filename}\\n📍 Location: {location_name}"`;
      the doubled backslash puts a backslash and an `n`, not a line break,
      into the text. */
  function Confirmation(filename: string, place: string): (r: string)
    // the file name and the place name can be read back from the text
    ensures |r| == |ConfirmPrefix| + |filename| + |ConfirmMiddle| + |place|
    ensures r[|ConfirmPrefix|..|ConfirmPrefix| + |filename|] == filename
    ensures r[|r| - |place|..] == place
  {
    ConfirmPrefix + filename + ConfirmMiddle + place
  }

  /** `upload_image`, step by step as the source runs it.  A request that
      fails does so before any lookup or write; one that succeeds asks the
      geocoder at most once, then writes the image and then the sidecar. */
  method UploadImage(req: UploadRequest, now: string,
                     decode: string -> Option<seq<byte>>,
                     geocode: (Coord, Coord) -> Geocoded)
    returns (effects: seq<Effect>, outcome: Result<string, UploadError>)
    ensures outcome.Failure? <==> DecodeImage(req.image, decode).Failure?
    ensures outcome.Failure? ==>
      outcome.error == DecodeImage(req.image, decode).error && effects == []
    ensures outcome.Success? ==>
      var place := EffectiveLocation(req.locationName, req.latitude, req.longitude, geocode);
      outcome.value == Confirmation(FileName(now, place), place) &&
      effects ==
        (if NeedsLookup(req.locationName, req.latitude, req.longitude)
         then [Geocode(req.latitude, req.longitude)] else []) +
        [WriteImage(ImagePath(now, place), DecodeImage(req.image, decode).value),
         WriteMeta(MetaPath(now, place), Meta(now, req.latitude, req.longitude, place))]
  {
    effects := [];
    if req.image.None? {
      return effects, Failure(MissingImage);
    }
    var imageData := ExtractPayload(req.image.value);
    if imageData.Failure? {
      return effects, Failure(imageData.error);
    }
    var imageBytes := decode(imageData.value);
    if imageBytes.None? {
      return effects, Failure(BadBase64);
    }
    assert DecodeImage(req.image, decode) == Success(imageBytes.value);

    var timestamp := now;
    var lat, lon := req.latitude, req.longitude;
    var locationName := if req.locationName.Some? && req.locationName.value != ""
                        then req.locationName.value else UnknownLocation;

    if locationName == UnknownLocation && Truthy(lat) && Truthy(lon) {
      effects := effects + [Geocode(lat, lon)];
      match geocode(lat, lon)
      case Raised =>
        locationName := LookupFailed;
      case Answer(d) =>
        locationName := if d.Some? then d.value else UnknownLocation;
    }
    ghost var lookups := effects;
    assert lookups == if NeedsLookup(req.locationName, lat, lon) then [Geocode(lat, lon)] else [];
    assert locationName == EffectiveLocation(req.locationName, lat, lon, geocode);

    var safeLocation := Sanitize(locationName);
    var filename := "photo_" + timestamp + "_" + safeLocation + ".png";
    var filepath := UploadFolder + "/" + filename;
    effects := effects + [WriteImage(filepath, imageBytes.value)];

    var meta := Meta(timestamp, lat, lon, locationName);
    effects := effects + [WriteMeta(ReplaceAll(filepath, ".png", ".json"), meta)];

    outcome := Success(Confirmation(filename, locationName));
    assert filename == FileName(now, locationName);
    assert filepath == ImagePath(now, locationName);
    WritesInOrder(lookups, now, locationName, filepath, imageBytes.value, meta);
  }

  /** The two writes of `UploadImage`, appended one after the other, are
      the image at its path and then the record at the sidecar path. */
  lemma WritesInOrder(before: seq<Effect>, ts: string, place: string, filepath: string,
                      bytes: seq<byte>, meta: Meta)
    requires filepath == ImagePath(ts, place)
    ensures before + [WriteImage(filepath, bytes)] + [WriteMeta(ReplaceAll(filepath, ".png", ".json"), meta)]
         == before + [WriteImage(ImagePath(ts, place), bytes), WriteMeta(MetaPath(ts, place), meta)]
  {
  }

  // ---------------------------------------------------------------------
  // Three example requests

  /** A client-supplied "Bengaluru, Karnataka, India" is stored verbatim.
      In the file name each comma and each space becomes its own
      underscore, so ", " turns into two of them. */
  lemma ScenarioClientName(lat: Coord, lon: Coord, geocode: (Coord, Coord) -> Geocoded)
    ensures var place := EffectiveLocation(Some("Bengaluru, Karnataka, India"), lat, lon, geocode);
      place == "Bengaluru, Karnataka, India" &&
      Sanitize(place) == "Bengaluru__Karnataka__India"
  {
    var place := "Bengaluru, Karnataka, India";
    var safe := "Bengaluru__Karnataka__India";
    assert |place| == 27 && |safe| == 27;
    assert |Sanitize(place)| == |safe|;
    forall i | 0 <= i < |safe| ensures Sanitize(place)[i] == safe[i] {
      assert Sanitize(place)[i] == SafeChar(place[i]);
    }
  }

  /** An image field that is not a data URL: `split(',')[1]` raises
      before the decoder is reached. */
  lemma ScenarioNoComma(decode: string -> Option<seq<byte>>)
    ensures DecodeImage(Some("AAAA"), decode) == Failure(NoComma)
  {
    assert ',' !in "AAAA";
  }

  /** No name and no coordinates: "Unknown Location", file name part
      "Unknown_Location". */
  lemma ScenarioNothingKnown(geocode: (Coord, Coord) -> Geocoded)
    ensures var place := EffectiveLocation(None, Null, Null, geocode);
      place == UnknownLocation && Sanitize(place) == "Unknown_Location"
  {
  }
}
