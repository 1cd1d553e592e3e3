/** Coordinate normalisation (`convert_to_degrees` and `get_lat_lon`,
    app.py:37-83): degrees/minutes/seconds values from the GPS block become
    signed decimal degrees, with the hemisphere reference deciding the sign.
    The GPS fields read are GPSLatitude, GPSLatitudeRef, GPSLongitude and
    GPSLongitudeRef of section 4.6.6 of the Exif 2.3 standard (JEITA
    CP-3451). Arithmetic is exact over `real`. */
module Coordinates {
  import opened Values
  import ExifTags

  /** The number a Python int or float stands for. */
  function Number(v: Value): Option<real>
  {
    match v
    case Int(i) => Some(i as real)
    case Float(x) => Some(x)
    case _ => None
  }

  /** `to_float`: a tuple `(n, d)` is divided out (IndexError on a shorter
      tuple, TypeError on non-numbers, ZeroDivisionError on d == 0); anything
      else goes through `float(x)`, which accepts plain numbers only here. */
  function ToReal(x: Value): (r: Option<real>)
    ensures x.Tuple? ==>
              (r.Some? <==> |x.items| >= 2 && Number(x.items[0]).Some? && Number(x.items[1]).Some?
                            && Number(x.items[1]).value != 0.0)
    ensures x.Tuple? && r.Some? ==> r.value * Number(x.items[1]).value == Number(x.items[0]).value
    ensures !x.Tuple? ==> r == Number(x)
  {
    match x
    case Tuple(items) =>
      if |items| < 2 then None
      else
        var n :- Number(items[0]);
        var d :- Number(items[1]);
        if d == 0.0 then None else Some(n / d)
    case _ => Number(x)
  }

  /** `value[i]` for a non-negative index: tuples and strings are indexed,
      bytes give the integer at that position, dictionaries look up the key i;
      an index out of range or an unsubscriptable value raises. */
  function Index(v: Value, i: nat): Option<Value>
  {
    match v
    case Tuple(items) => if i < |items| then Some(items[i]) else None
    case Str(s) => if i < |s| then Some(Str([s[i]])) else None
    case Bytes(b) => if i < |b| then Some(Int(b[i] as int)) else None
    case Dict(fields) => if Code(i) in fields then Some(fields[Code(i)]) else None
    case Ifd(entries) =>
      var byCode := ExifTags.Rekey(entries, map[]);
      if Code(i) in byCode then Some(byCode[Code(i)]) else None
    case _ => None
  }

  /** `to_float(value[i])`. */
  function Part(v: Value, i: nat): Option<real>
  {
    var x :- Index(v, i);
    ToReal(x)
  }

  /** `convert_to_degrees`: degrees + minutes/60 + seconds/3600 of the first
      three components; any component that cannot be read makes it raise. */
  function ConvertToDegrees(value: Value): (r: Option<real>)
    ensures r.Some? <==> Part(value, 0).Some? && Part(value, 1).Some? && Part(value, 2).Some?
    ensures r.Some? ==> 3600.0 * r.value
                        == 3600.0 * Part(value, 0).value + 60.0 * Part(value, 1).value + Part(value, 2).value
    ensures r.Some? && Part(value, 0).value >= 0.0 && Part(value, 1).value >= 0.0 && Part(value, 2).value >= 0.0
            ==> r.value >= 0.0
  {
    var d :- Part(value, 0);
    var m :- Part(value, 1);
    var s :- Part(value, 2);
    Some(d + m / 60.0 + s / 3600.0)
  }

  /** The pair `get_lat_lon` returns; each side is None or a number. */
  datatype LatLon = LatLon(lat: Option<real>, lon: Option<real>)

  const Unavailable := LatLon(None, None)

  /** `gps_info[name]`: a lookup by name in the decoded GPS dictionary;
      anything else raises (KeyError or TypeError). */
  function Field(gps: Value, name: string): Option<Value>
  {
    match gps
    case Dict(fields) => if Name(name) in fields then Some(fields[Name(name)]) else None
    case _ => None
  }

  /** A hemisphere reference as text: bytes are decoded first; a value that
      is neither text nor bytes has no `upper()` and raises. */
  function RefText(v: Value): (r: Option<string>)
    ensures v.Str? ==> r == Some(v.s)
    ensures v.Bytes? ==> r == DecodeAscii(v.b)
    ensures !v.Str? && !v.Bytes? ==> r.None?
  {
    match v
    case Str(s) => Some(s)
    case Bytes(b) => DecodeAscii(b)
    case _ => None
  }

  /** The body of the `try` block in `get_lat_lon`: None when anything in it
      raises. */
  function Fix(gps: Value): Option<(real, real)>
  {
    var latValue :- Field(gps, "GPSLatitude");
    var lat :- ConvertToDegrees(latValue);
    var lonValue :- Field(gps, "GPSLongitude");
    var lon :- ConvertToDegrees(lonValue);
    var latRef :- Field(gps, "GPSLatitudeRef");
    var lonRef :- Field(gps, "GPSLongitudeRef");
    var latText :- RefText(latRef);
    var lonText :- RefText(lonRef);
    Some((if Upper(latText) == "S" then -lat else lat,
          if Upper(lonText) == "W" then -lon else lon))
  }

  /** `get_lat_lon`: both coordinates or neither. */
  function GetLatLon(exif: map<Key, Value>): (r: LatLon)
    ensures r.lat.Some? <==> r.lon.Some?
    ensures ExifTags.GpsInfoKey !in exif ==> r == Unavailable
  {
    if ExifTags.GpsInfoKey !in exif then Unavailable
    else
      match Fix(exif[ExifTags.GpsInfoKey])
      case Some((lat, lon)) => LatLon(Some(lat), Some(lon))
      case None => Unavailable
  }

  /** Signed value of a magnitude under a one-letter hemisphere reference. */
  function Signed(magnitude: real, ref: string, negative: char): real
    requires 'A' <= negative <= 'Z'
  {
    if ref == [negative] || ref == [(negative as int + 32) as char] then -magnitude else magnitude
  }

  /** The whole behaviour of `get_lat_lon` once the four GPS fields are present:
      a result exactly when both values convert and both references are text,
      and then latitude is negated exactly for "S" or "s" and longitude exactly
      for "W" or "w". */
  lemma Hemispheres(exif: map<Key, Value>, latValue: Value, latRef: Value, lonValue: Value, lonRef: Value)
    requires ExifTags.GpsInfoKey in exif
    requires Field(exif[ExifTags.GpsInfoKey], "GPSLatitude") == Some(latValue)
    requires Field(exif[ExifTags.GpsInfoKey], "GPSLatitudeRef") == Some(latRef)
    requires Field(exif[ExifTags.GpsInfoKey], "GPSLongitude") == Some(lonValue)
    requires Field(exif[ExifTags.GpsInfoKey], "GPSLongitudeRef") == Some(lonRef)
    ensures GetLatLon(exif).lat.Some? <==>
              ConvertToDegrees(latValue).Some? && ConvertToDegrees(lonValue).Some?
              && RefText(latRef).Some? && RefText(lonRef).Some?
    ensures GetLatLon(exif).lat.Some? ==>
              && GetLatLon(exif).lat.value == Signed(ConvertToDegrees(latValue).value, RefText(latRef).value, 'S')
              && GetLatLon(exif).lon.value == Signed(ConvertToDegrees(lonValue).value, RefText(lonRef).value, 'W')
  {
  }

  /** A missing required field makes the whole pair unavailable. */
  lemma MissingFieldUnavailable(exif: map<Key, Value>, name: string)
    requires name in {"GPSLatitude", "GPSLatitudeRef", "GPSLongitude", "GPSLongitudeRef"}
    requires ExifTags.GpsInfoKey in exif ==> Field(exif[ExifTags.GpsInfoKey], name).None?
    ensures GetLatLon(exif) == Unavailable
  {
  }

  /** For a non-zero magnitude, latitude comes out negative exactly under a
      southern reference and longitude exactly under a western one. */
  lemma SouthAndWestNegative(exif: map<Key, Value>, latValue: Value, latRef: Value, lonValue: Value, lonRef: Value)
    requires ExifTags.GpsInfoKey in exif
    requires Field(exif[ExifTags.GpsInfoKey], "GPSLatitude") == Some(latValue)
    requires Field(exif[ExifTags.GpsInfoKey], "GPSLatitudeRef") == Some(latRef)
    requires Field(exif[ExifTags.GpsInfoKey], "GPSLongitude") == Some(lonValue)
    requires Field(exif[ExifTags.GpsInfoKey], "GPSLongitudeRef") == Some(lonRef)
    requires ConvertToDegrees(latValue).Some? && ConvertToDegrees(latValue).value > 0.0
    requires ConvertToDegrees(lonValue).Some? && ConvertToDegrees(lonValue).value > 0.0
    requires RefText(latRef).Some? && RefText(lonRef).Some?
    ensures GetLatLon(exif).lat.Some? && GetLatLon(exif).lon.Some?
    ensures GetLatLon(exif).lat.value < 0.0 <==> RefText(latRef).value in {"S", "s"}
    ensures GetLatLon(exif).lon.value < 0.0 <==> RefText(lonRef).value in {"W", "w"}
  {
    Hemispheres(exif, latValue, latRef, lonValue, lonRef);
  }

  /** The GPS dictionary a camera writes for one fix. */
  function GpsExif(latValue: Value, latRef: Value, lonValue: Value, lonRef: Value): map<Key, Value>
  {
    map[ExifTags.GpsInfoKey := Dict(map[
      Name("GPSLatitude") := latValue,
      Name("GPSLatitudeRef") := latRef,
      Name("GPSLongitude") := lonValue,
      Name("GPSLongitudeRef") := lonRef])]
  }

  /** A rational n/d with 0 <= n < 60*d lies in [0, 60). */
  lemma RatioBelowSixty(n: int, d: int)
    requires d > 0 && 0 <= n < 60 * d
    ensures 0.0 <= n as real / d as real < 60.0
  {
    var q := n as real / d as real;
    assert q * d as real == n as real;
    CastProduct(60, d);
    if q >= 60.0 {
      ScaleMonotone(q, 60.0, d as real);
      assert false;
    }
  }

  /** Scaling by a positive factor keeps the order. */
  lemma ScaleMonotone(a: real, b: real, x: real)
    requires x > 0.0 && a >= b
    ensures a * x >= b * x
  {
    assert a * x - b * x == (a - b) * x;
  }

  /** The encoding side: the non-negative decimal degrees num/den as whole
      degrees, whole minutes and rational seconds, the normal form of the
      three RATIONAL components of GPSLatitude and GPSLongitude. */
  function ToDms(num: nat, den: nat): (v: Value)
    requires den > 0
    ensures v.Tuple? && |v.items| == 3
    ensures Index(v, 0) == Some(Ratio(num / den, 1))
    ensures Index(v, 1) == Some(Ratio((60 * (num % den)) / den, 1))
    ensures Part(v, 0) == Some((num / den) as real)
    ensures Part(v, 1).Some? && 0.0 <= Part(v, 1).value < 60.0
    ensures Part(v, 2).Some? && 0.0 <= Part(v, 2).value < 60.0
  {
    var deg := num / den;
    var rest := num % den;
    var minutes := (60 * rest) / den;
    var seconds := (60 * rest) % den;
    assert minutes < 60 by {
      assert 60 * rest < 60 * den;
    }
    RatioBelowSixty(60 * seconds, den);
    var v := Tuple([Ratio(deg, 1), Ratio(minutes, 1), Ratio(60 * seconds, den)]);
    assert Part(v, 0) == Some(deg as real);
    assert Part(v, 1) == Some(minutes as real);
    assert Part(v, 2) == Some((60 * seconds) as real / den as real);
    v
  }

  /** The identity behind the round trip: with num = deg*x + rest and
      60*rest = minutes*x + seconds, the sum deg + minutes/60 + (60*seconds/x)/3600
      is num/x. */
  lemma DmsArithmetic(deg: real, minutes: real, seconds: real, rest: real, num: real, x: real)
    requires x > 0.0
    requires num == deg * x + rest
    requires 60.0 * rest == minutes * x + seconds
    ensures deg + minutes / 60.0 + (60.0 * seconds / x) / 3600.0 == num / x
  {
  }

  /** Converting a product of integers to real multiplies the conversions. */
  lemma CastProduct(a: int, b: int)
    ensures (a * b) as real == a as real * b as real
  {
  }

  /** Normalising the encoded form gives back exactly num/den. */
  lemma {:induction false} DmsRoundTrip(num: nat, den: nat)
    requires den > 0
    ensures ConvertToDegrees(ToDms(num, den)) == Some(num as real / den as real)
  {
    var deg := num / den;
    var rest := num % den;
    var minutes := (60 * rest) / den;
    var seconds := (60 * rest) % den;
    var v := ToDms(num, den);
    assert Part(v, 0) == Some(deg as real);
    assert Part(v, 1) == Some(minutes as real);
    assert Part(v, 2) == Some((60 * seconds) as real / den as real);
    CastProduct(deg, den);
    CastProduct(minutes, den);
    DmsArithmetic(deg as real, minutes as real, seconds as real, rest as real, num as real, den as real);
  }

  /** The four fields of `GpsExif` read back as written. */
  lemma GpsExifFields(latValue: Value, latRef: Value, lonValue: Value, lonRef: Value)
    ensures ExifTags.GpsInfoKey in GpsExif(latValue, latRef, lonValue, lonRef)
    ensures var gps := GpsExif(latValue, latRef, lonValue, lonRef)[ExifTags.GpsInfoKey];
            && Field(gps, "GPSLatitude") == Some(latValue)
            && Field(gps, "GPSLatitudeRef") == Some(latRef)
            && Field(gps, "GPSLongitude") == Some(lonValue)
            && Field(gps, "GPSLongitudeRef") == Some(lonRef)
  {
  }

  /** A magnitude under the reference chosen by its sign is the signed value. */
  lemma SignedMagnitude(num: int, den: nat, negative: char, positive: char)
    requires den > 0 && 'A' <= negative <= 'Z' && 'A' <= positive <= 'Z' && positive != negative
    ensures Signed((if num < 0 then -num else num) as real / den as real,
                   if num < 0 then [negative] else [positive], negative)
            == num as real / den as real
  {
  }

  /** A signed fix num/den encoded as magnitude plus hemisphere reference
      ("N"/"S", "E"/"W") and read back by `get_lat_lon` is recovered exactly. */
  lemma FixRoundTrip(latNum: int, lonNum: int, den: nat)
    requires den > 0
    ensures GetLatLon(GpsExif(
              ToDms(if latNum < 0 then -latNum else latNum, den), Str(if latNum < 0 then "S" else "N"),
              ToDms(if lonNum < 0 then -lonNum else lonNum, den), Str(if lonNum < 0 then "W" else "E")))
            == LatLon(Some(latNum as real / den as real), Some(lonNum as real / den as real))
  {
    var latMag := if latNum < 0 then -latNum else latNum;
    var lonMag := if lonNum < 0 then -lonNum else lonNum;
    var latRef := Str(if latNum < 0 then "S" else "N");
    var lonRef := Str(if lonNum < 0 then "W" else "E");
    DmsRoundTrip(latMag, den);
    DmsRoundTrip(lonMag, den);
    GpsExifFields(ToDms(latMag, den), latRef, ToDms(lonMag, den), lonRef);
    var exif := GpsExif(ToDms(latMag, den), latRef, ToDms(lonMag, den), lonRef);
    Hemispheres(exif, ToDms(latMag, den), latRef, ToDms(lonMag, den), lonRef);
    SignedMagnitude(latNum, den, 'S', 'N');
    SignedMagnitude(lonNum, den, 'W', 'E');
  }

  /** 51°9'56.52" and 10°27'5.4" as three rationals each. */
  const ExampleLatitude := Tuple([Ratio(51, 1), Ratio(9, 1), Ratio(5652, 100)])
  const ExampleLongitude := Tuple([Ratio(10, 1), Ratio(27, 1), Ratio(54, 10)])

  /** 51°9'56.52" is 51.1657 degrees and 10°27'5.4" is 10.4515 degrees. */
  lemma ExampleDegrees()
    ensures ConvertToDegrees(ExampleLatitude) == Some(51.1657)
    ensures ConvertToDegrees(ExampleLongitude) == Some(10.4515)
  {
  }

  /** Under "N" and the byte string b"E" the example is the point
      (51.1657, 10.4515). */
  lemma NorthEastExample()
    ensures GetLatLon(GpsExif(ExampleLatitude, Str("N"), ExampleLongitude, Bytes([69])))
            == LatLon(Some(51.1657), Some(10.4515))
  {
    ExampleDegrees();
    assert DecodeAscii([69]).value[0] == 'E';
    GpsExifFields(ExampleLatitude, Str("N"), ExampleLongitude, Bytes([69]));
    Hemispheres(GpsExif(ExampleLatitude, Str("N"), ExampleLongitude, Bytes([69])),
                ExampleLatitude, Str("N"), ExampleLongitude, Bytes([69]));
  }

  /** Under the lower-case "s" and the byte string b"w" the same magnitudes
      give (-51.1657, -10.4515). */
  lemma SouthWestExample()
    ensures GetLatLon(GpsExif(ExampleLatitude, Str("s"), ExampleLongitude, Bytes([119])))
            == LatLon(Some(-51.1657), Some(-10.4515))
  {
    ExampleDegrees();
    assert DecodeAscii([119]).value[0] == 'w';
    GpsExifFields(ExampleLatitude, Str("s"), ExampleLongitude, Bytes([119]));
    Hemispheres(GpsExif(ExampleLatitude, Str("s"), ExampleLongitude, Bytes([119])),
                ExampleLatitude, Str("s"), ExampleLongitude, Bytes([119]));
  }
}
