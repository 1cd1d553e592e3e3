/** The rules of the upload handler (`upload`, app.py:107-196) that decide
    what is stored: the category check, the extension taken from the file
    name, the rename of HEIC/HEIF uploads to JPEG, the EXIF read of the
    stored file with its fallback, and the default map position. Form
    access, file writes, image decoding and the database insert are not
    modelled; their results are parameters. */
module Upload {
  import opened Values
  import ExifTags
  import Coordinates

  const AllowedCategories: seq<string> := ["Burg", "Fels", "Kirche", "Aussicht"]
  const UploadFolder: string := "static/uploads"

  /** The position stored when the image carries no usable GPS data. */
  const DefaultLat: real := 51.1657
  const DefaultLon: real := 10.4515

  /** Position of the last '.' in s, if any. */
  function LastDot(s: string): (r: Option<nat>)
    ensures r.Some? ==> r.value < |s| && s[r.value] == '.'
                        && forall j :: r.value < j < |s| ==> s[j] != '.'
    ensures r.None? ==> forall j :: 0 <= j < |s| ==> s[j] != '.'
  {
    if |s| == 0 then None
    else if s[|s| - 1] == '.' then Some(|s| - 1)
    else LastDot(s[..|s| - 1])
  }

  /** `s.rsplit('.', 1)[-1]`: what follows the last '.', or all of s. */
  function Suffix(s: string): string
  {
    match LastDot(s)
    case None => s
    case Some(k) => s[k + 1..]
  }

  /** `s.rsplit('.', 1)[0]`: what precedes the last '.', or all of s. */
  function Stem(s: string): string
  {
    match LastDot(s)
    case None => s
    case Some(k) => s[..k]
  }

  /** `ext = filename.rsplit('.', 1)[-1].lower()`. */
  function Extension(filename: string): string
  {
    Lower(Suffix(filename))
  }

  predicate IsHeif(filename: string)
  {
    Extension(filename) in ["heic", "heif"]
  }

  /** The name the upload is stored under: a HEIC/HEIF file is saved as a
      JPEG named `stem + ".jpg"`, any other file under its own name. */
  function StoredName(filename: string): string
  {
    if IsHeif(filename) then Stem(filename) + ".jpg" else filename
  }

  /** rsplit at the last dot: stem, dot and suffix put back together give the
      name, and the suffix holds no dot; without a dot both parts are the
      whole name. */
  lemma SplitAtLastDot(filename: string)
    ensures '.' in filename ==> Stem(filename) + "." + Suffix(filename) == filename
    ensures '.' !in Suffix(filename)
    ensures '.' !in filename ==> Stem(filename) == filename && Suffix(filename) == filename
  {
  }

  /** The last dot is at k when s[k] is a dot and nothing after it is. */
  lemma LastDotAt(s: string, k: nat)
    requires k < |s| && s[k] == '.'
    requires forall j :: k < j < |s| ==> s[j] != '.'
    ensures LastDot(s) == Some(k)
  {
  }

  /** A HEIC/HEIF upload is stored as `stem.jpg`: same stem, extension "jpg". */
  lemma HeifStoredAsJpeg(filename: string)
    requires IsHeif(filename)
    ensures StoredName(filename) == Stem(filename) + ".jpg"
    ensures Stem(StoredName(filename)) == Stem(filename)
    ensures Extension(StoredName(filename)) == "jpg"
  {
    var stem := Stem(filename);
    var stored := stem + ".jpg";
    LastDotAt(stored, |stem|);
    assert stored[|stem| + 1..] == "jpg";
    assert stored[..|stem|] == stem;
  }

  /** Any other upload keeps its name. */
  lemma OtherStoredUnchanged(filename: string)
    requires !IsHeif(filename)
    ensures StoredName(filename) == filename
  {
  }

  /** Some names and what they are stored as: the extension is compared
      case-insensitively, only the last segment counts, and a name without a
      dot that is itself "heic" gains ".jpg". */
  lemma StoredNameExamples()
    ensures StoredName("IMG_0001.HEIC") == "IMG_0001.jpg"
    ensures StoredName("castle.tar.heif") == "castle.tar.jpg"
    ensures StoredName("heic") == "heic.jpg"
    ensures StoredName("rock.heic.png") == "rock.heic.png"
  {
    LastDotAt("IMG_0001.HEIC", 8);
    assert Lower("HEIC") == "heic";
    LastDotAt("castle.tar.heif", 10);
    assert "castle.tar.heif"[..10] == "castle.tar";
    assert Lower("heif") == "heif";
    assert LastDot("heic") == None;
    assert Lower("heic") == "heic";
    LastDotAt("rock.heic.png", 9);
    assert Lower("png") == "png";
  }

  /** The stored file as the EXIF step finds it: `Image.open(path)` or
      `_getexif()` raised, or `_getexif()` returned the block `info`
      (None when the file has none). */
  datatype StoredImage = Unreadable | Readable(info: Option<RawExif>)

  /** Lines 163-169: EXIF decoding and `get_lat_lon`, any exception giving
      (None, None). */
  function ExtractedCoordinates(stored: StoredImage, tags: map<int, string>, gpsTags: map<int, string>)
    : (c: Coordinates.LatLon)
    ensures c.lat.Some? <==> c.lon.Some?
    ensures stored.Unreadable? ==> c == Coordinates.Unavailable
    ensures stored.Readable? && ExifTags.DecodeExif(stored.info, tags, gpsTags).None? ==> c == Coordinates.Unavailable
    ensures stored.Readable? && ExifTags.DecodeExif(stored.info, tags, gpsTags).Some?
            ==> c == Coordinates.GetLatLon(ExifTags.DecodeExif(stored.info, tags, gpsTags).value)
  {
    match stored
    case Unreadable => Coordinates.Unavailable
    case Readable(info) =>
      match ExifTags.DecodeExif(info, tags, gpsTags)
      case None => Coordinates.Unavailable
      case Some(exif) => Coordinates.GetLatLon(exif)
  }

  /** The row the handler passes to the INSERT. */
  datatype Record = Record(name: string, description: string, category: string, path: string, lat: real, lon: real)

  /** How a POST to the upload route ends. */
  datatype Response =
    | InvalidCategory   // "Ungültige Kategorie", status 400, nothing written
    | NothingStored     // no file part: redirect without a record
    | DecodeFailed      // reading or converting the HEIC/HEIF data raised: the request fails
    | SaveFailed        // writing the image to its path raised: the request fails, no record
    | Saved(record: Record)

  /** The POST branch of `upload`. `clientFilename` is the name the browser
      sent (an empty one makes the file part falsy), `safeFilename` the
      result of `secure_filename` on it, `heifDecodes` whether the HEIC/HEIF
      branch up to the save completes (`read_heif`, `frombytes`,
      `exif_transpose`), `saveSucceeds` whether writing the image to its path
      completes (it raises, for instance, when the sanitised name is empty and
      the path is the upload folder itself), `stored` what the EXIF step finds
      in the written file; `tags` and `gpsTags` are Pillow's TAGS and GPSTAGS. */
  method Upload(name: string, description: string, category: string,
                clientFilename: string, safeFilename: string, heifDecodes: bool, saveSucceeds: bool,
                stored: StoredImage, tags: map<int, string>, gpsTags: map<int, string>)
    returns (response: Response)
    ensures response == InvalidCategory <==> category !in AllowedCategories
    ensures response == NothingStored <==> category in AllowedCategories && clientFilename == ""
    ensures response == DecodeFailed <==>
              category in AllowedCategories && clientFilename != "" && IsHeif(safeFilename) && !heifDecodes
    ensures response == SaveFailed <==>
              category in AllowedCategories && clientFilename != "" && (IsHeif(safeFilename) ==> heifDecodes)
              && !saveSucceeds
    ensures response.Saved? <==>
              category in AllowedCategories && clientFilename != "" && (IsHeif(safeFilename) ==> heifDecodes)
              && saveSucceeds
    ensures response.Saved? ==>
              && response.record.name == name
              && response.record.description == description
              && response.record.category == category
              && category in AllowedCategories
              && response.record.path == UploadFolder + "/" + StoredName(safeFilename)
    ensures response.Saved? ==>
              var c := ExtractedCoordinates(stored, tags, gpsTags);
              && (c == Coordinates.Unavailable ==> response.record.lat == DefaultLat && response.record.lon == DefaultLon)
              && (c != Coordinates.Unavailable ==> c == Coordinates.LatLon(Some(response.record.lat), Some(response.record.lon)))
  {
    if category !in AllowedCategories {
      return InvalidCategory;
    }
    if clientFilename == "" {
      return NothingStored;
    }
    var filename := safeFilename;
    var ext := Extension(filename);
    if ext in ["heic", "heif"] {
      if !heifDecodes {
        return DecodeFailed;
      }
      filename := Stem(filename) + ".jpg";
    }
    var path := UploadFolder + "/" + filename;
    if !saveSucceeds {
      return SaveFailed;
    }

    var lat: Option<real>, lon: Option<real> := None, None;
    match stored {
      case Unreadable =>
      case Readable(info) =>
        var exifData := ExifTags.GetExifData(info, tags, gpsTags);
        if exifData.Some? {
          var fix := Coordinates.GetLatLon(exifData.value);
          lat, lon := fix.lat, fix.lon;
        }
    }

    var latitude := if lat.None? then DefaultLat else lat.value;
    var longitude := if lon.None? then DefaultLon else lon.value;
    return Saved(Record(name, description, category, path, latitude, longitude));
  }

  /** Pillow's code for the GPS block and the GPS tag codes of section 4.6.6
      of the Exif 2.3 standard used by the end-to-end example. */
  const GpsIfdCode: int := 0x8825
  const ExampleTags: map<int, string> := map[GpsIfdCode := "GPSInfo", 0x0132 := "DateTime"]
  const ExampleGpsTags: map<int, string> :=
    map[1 := "GPSLatitudeRef", 2 := "GPSLatitude", 3 := "GPSLongitudeRef", 4 := "GPSLongitude"]

  /** A raw block carrying 51°9'56.52" N, 10°27'5.4" E (the longitude
      reference as bytes) next to an unrelated tag goes through tag decoding
      and normalisation to (51.1657, 10.4515). */
  lemma EndToEndExample()
    ensures ExtractedCoordinates(
              Readable(Some([(0x0132, Str("2023:08:15 14:32:10")),
                             (GpsIfdCode, Ifd([(1, Str("N")), (2, Coordinates.ExampleLatitude),
                                               (3, Bytes([69])), (4, Coordinates.ExampleLongitude)]))])),
              ExampleTags, ExampleGpsTags)
            == Coordinates.LatLon(Some(51.1657), Some(10.4515))
  {
    var block := [(1, Str("N")), (2, Coordinates.ExampleLatitude), (3, Bytes([69])), (4, Coordinates.ExampleLongitude)];
    var entries := [(0x0132, Str("2023:08:15 14:32:10")), (GpsIfdCode, Ifd(block))];
    assert DecodeKey(ExampleTags, 0x0132) != ExifTags.GpsInfoKey;
    assert !ExifTags.GpsRaises(entries, ExampleTags);
    DecodedValueAt(entries, 1);
    var exif := ExifTags.DecodeExif(Some(entries), ExampleTags, ExampleGpsTags).value;
    var gps := exif[ExifTags.GpsInfoKey];
    assert gps == Dict(ExifTags.Rekey(block, ExampleGpsTags));
    GpsFieldAt(block, 0);
    GpsFieldAt(block, 1);
    GpsFieldAt(block, 2);
    GpsFieldAt(block, 3);
    Coordinates.ExampleDegrees();
    assert DecodeAscii([69]).value[0] == 'E';
    Coordinates.Hemispheres(exif, Coordinates.ExampleLatitude, Str("N"), Coordinates.ExampleLongitude, Bytes([69]));
  }

  lemma DecodedValueAt(entries: RawExif, i: int)
    requires ExifTags.DecodeExif(Some(entries), ExampleTags, ExampleGpsTags).Some?
    requires |entries| > 0 && i == |entries| - 1 && entries[i].0 == GpsIfdCode && entries[i].1.Ifd?
    ensures var m := ExifTags.DecodeExif(Some(entries), ExampleTags, ExampleGpsTags).value;
            ExifTags.GpsInfoKey in m && m[ExifTags.GpsInfoKey] == Dict(ExifTags.Rekey(entries[i].1.entries, ExampleGpsTags))
  {
  }

  lemma GpsFieldAt(block: seq<(int, Value)>, j: nat)
    requires j < |block| && forall t :: 0 <= t < |block| ==> block[t].0 == t + 1
    ensures DecodeKey(ExampleGpsTags, block[j].0) in ExifTags.Rekey(block, ExampleGpsTags)
    ensures ExifTags.Rekey(block, ExampleGpsTags)[DecodeKey(ExampleGpsTags, block[j].0)] == block[j].1
  {
    assert ExifTags.LastFor(block, ExampleGpsTags, j) by {
      forall t | j < t < |block|
        ensures DecodeKey(ExampleGpsTags, block[t].0) != DecodeKey(ExampleGpsTags, block[j].0)
      {
      }
    }
    ExifTags.RekeyLastWriter(block, ExampleGpsTags, j);
  }
}
