# Landmark photo uploads: EXIF geotag extraction in Dafny

This project models the geotagging core of a small Flask application. Users upload landmark photographs (castles, rocks, churches, viewpoints) with a name, a description and a category. The server stores each image and records where it was taken.

Where the position comes from:

- The server reads the EXIF block of the stored file.
- It re-keys the block's numeric tag codes to tag names (`get_exif_data`).
- It turns the GPS degrees/minutes/seconds into signed decimal degrees (`convert_to_degrees`, `get_lat_lon`).
- When no position can be read, it falls back to a fixed default point, 51.1657, 10.4515.

The upload handler also checks the category against a closed list. It derives the extension from the file name and stores HEIC/HEIF uploads as JPEG under `stem.jpg`.

Modules, one per component of `app.py`:

- `values.dfy`, module `Values`: the EXIF value variants, dictionary keys (a tag name, or the raw code when the table does not know it), `TAGS.get(code, code)`, and ASCII case mapping and byte decoding.
- `exif_tags.dfy`, module `ExifTags`: `get_exif_data`. The method `GetExifData` keeps the source's two nested dictionary-building loops. It is proved equal to the specification function `DecodeExif`, which is built from a left-to-right fold `Rekey`. Lemmas about `Rekey` give the key set and the "last write wins" value of every key.
- `coordinates.dfy`, module `Coordinates`: `to_float`, `convert_to_degrees` and `get_lat_lon` as functions over exact reals. Python's `try`/`except` becomes `Option` with `:-`. The lemmas cover the sign rule for the hemisphere reference, the all-or-nothing result, and an exact round trip through a degrees/minutes/seconds encoder (`ToDms`). The GPS fields are those of section 4.6.6 of the Exif 2.3 standard (JEITA CP-3451).
- `upload.dfy`, module `Upload`: the category check, `rsplit('.', 1)`, the HEIC/HEIF rename, the guarded EXIF read and the default-coordinate fallback. These are collected in the method `Upload`, which returns the record the handler would insert.

`TAGS` and `GPSTAGS` (Pillow's tables) are parameters throughout. One end-to-end lemma instantiates them with the GPS block code 0x8825 and the Exif 2.3 GPS codes 1-4.

What `app.py` does not do, and the model therefore does not do either:

- There is no extension allowlist. Only the category is validated.
- Coordinates are not range-checked.
- An empty `name` is not rejected.
- No capture timestamp is extracted.
- No thumbnail is made.

## Model

| member | source | states |
|---|---|---|
| Values.DecodeKey | app.py:25 | `table.get(code, code)`: the key is the tag name exactly when the table knows the code, and the raw code otherwise |
| Values.UpperIsLetter | app.py:71-78 | an upper-cased reference equals a capital letter exactly when it is that letter in upper or lower case |
| Values.DecodeAscii | app.py:66-69 | decoding a byte reference succeeds exactly when every byte is ASCII, and it yields the same characters |
| ExifTags.RekeyKeys | app.py:28-30 | the keys of a re-keyed dictionary are exactly `table.get(t, t)` of its codes |
| ExifTags.RekeyLastWriter | app.py:28-30 | a key holds the unchanged value of the last entry whose code decodes to it |
| ExifTags.GetExifData | app.py:20-34 | the nested loops compute `DecodeExif`; no EXIF block or an empty one gives an empty dictionary; it raises exactly when a value filed under "GPSInfo" is not a dictionary |
| ExifTags.DecodedKeys | app.py:24-25 | the top-level keys are exactly `TAGS.get(tag, tag)` of the raw codes |
| ExifTags.DecodedValue | app.py:24-33 | a non-GPS value is copied unchanged; the "GPSInfo" value is its block re-keyed through GPSTAGS |
| ExifTags.GpsBlock | app.py:26-31 | the decoded GPS block has keys `GPSTAGS.get(t, t)` and holds the original sub-values |
| Coordinates.ToReal | app.py:39-42 | a tuple yields a value exactly when it has two numeric leading elements and the second is non-zero, and the value is the first divided by the second; a plain number is itself; anything else fails |
| Coordinates.ConvertToDegrees | app.py:37-48 | defined exactly when the first three components convert; the result is degrees + minutes/60 + seconds/3600; it is non-negative when the components are |
| Coordinates.RefText | app.py:62-69 | a text reference is used as is; a bytes reference is decoded first; anything else fails |
| Coordinates.GetLatLon | app.py:51-83 | both coordinates or neither; (None, None) when "GPSInfo" is absent |
| Coordinates.Hemispheres | app.py:58-80 | with the four fields present, a pair results exactly when both values convert and both references are text; latitude is negated exactly for "S"/"s" and longitude exactly for "W"/"w" |
| Coordinates.MissingFieldUnavailable | app.py:58-83 | a missing GPSLatitude, GPSLatitudeRef, GPSLongitude or GPSLongitudeRef gives (None, None) |
| Coordinates.SouthAndWestNegative | app.py:74-78 | for a non-zero magnitude, a coordinate is negative exactly under a southern or western reference |
| Coordinates.ToDms | app.py:44-48 | the encoder used as a partner: three components, whole degrees num div den and whole minutes as rationals over 1, minutes below 60 and rational seconds below 60 |
| Coordinates.DmsRoundTrip | app.py:37-48 | converting the encoding of num/den gives back exactly num/den |
| Coordinates.FixRoundTrip | app.py:51-83 | a signed fix, encoded as magnitudes with N/S and E/W references, is read back exactly |
| Coordinates.ExampleDegrees | app.py:44-48 | 51°9'56.52" is 51.1657 degrees and 10°27'5.4" is 10.4515 degrees |
| Coordinates.NorthEastExample | app.py:58-80 | "N" with the byte reference b"E" gives (51.1657, 10.4515) |
| Coordinates.SouthWestExample | app.py:66-78 | the lower-case "s" with b"w" gives (-51.1657, -10.4515) |
| Upload.LastDot | app.py:121 | finds the last '.' (nothing after it is a dot), or reports that there is none |
| Upload.SplitAtLastDot | app.py:121 | stem + "." + suffix is the name; the suffix has no dot; without a dot both parts are the whole name |
| Upload.HeifStoredAsJpeg | app.py:133-150 | a heic/heif upload (last segment, any case) is stored as `stem + ".jpg"`, with the same stem and extension "jpg" |
| Upload.OtherStoredUnchanged | app.py:158-160 | any other upload keeps its name |
| Upload.StoredNameExamples | app.py:121-149 | "IMG_0001.HEIC" becomes "IMG_0001.jpg", "castle.tar.heif" becomes "castle.tar.jpg", "heic" becomes "heic.jpg", and "rock.heic.png" is kept |
| Upload.ExtractedCoordinates | app.py:162-169 | the guarded EXIF read yields both coordinates or neither; an unreadable file or a raising `get_exif_data` gives (None, None); otherwise the pair is `get_lat_lon` of the decoded block |
| Upload.Upload | app.py:108-194 | 400 exactly for a category outside the four, before anything is stored; nothing for an empty file part; a failing HEIC/HEIF conversion or a failing image write ends the request without a record; otherwise a record with the stored name and the extracted pair, or both defaults 51.1657/10.4515 |
| Upload.EndToEndExample | app.py:162-166 | a raw block with the GPS IFD under 0x8825 and an unrelated tag decodes to (51.1657, 10.4515) |

## Left out

- Flask routing, form access, redirects, template rendering and the debug prints (app.py:107-196 outside the modelled lines). A missing form field, which Flask answers with a 400, is not modelled.
- The SQLite layer: `init_db`, the INSERT, and the `map`, `gallery`, `edit`, `delete` and `detail` routes (app.py:87-103, app.py:185-192, app.py:201-294). `Upload.Upload` returns the record the handler passes to the INSERT. The INSERT names the columns `latitude`/`longitude` (app.py:188), but the schema created at app.py:96-97 has `lat`/`lng`. Whether the INSERT succeeds therefore depends on the existing table, which is not modelled.
- Pillow and pillow_heif: decoding, `exif_transpose`, JPEG saving at quality 95, `Image.open`, `_getexif()` and `secure_filename`. Their outcomes are parameters of `Upload.Upload`: whether the HEIF data decodes, what the EXIF read of the stored file finds, and the sanitised name.
- `os.makedirs` and all file writes. Whether the image write succeeds is a parameter of `Upload.Upload`. One write the model does not predict by itself: a client name that `secure_filename` turns into "" makes the path the upload folder itself, and the save then raises.
- IEEE floating point: all arithmetic is exact over `real`, so rounding, overflow of `float()` and NaN are not modelled.
- Coordinates.ToReal: Python's `float()` also parses numeric strings and bytes. The model treats a text or bytes component as a failure.
- Values.DecodeAscii: only ASCII references are decoded. A reference with a byte at or above 0x80 counts as a decoding error, even when it is valid multi-byte UTF-8.
- Values.Upper: only ASCII letters are mapped. Python's `str.upper()` also maps other letters, for instance U+017F (long s) to "S".
- Values.Lower: only ASCII letters are mapped, like `Upper`.
- ExifTags.DecodeExif: only a code-keyed dictionary (`Ifd`) under "GPSInfo" is iterated. Any other value there is taken to raise: a string, bytes or tuple, which Python would iterate, and a name-keyed `Dict`, which Python would copy. Pillow's `_getexif` always returns a code-keyed dictionary for the GPS block.
- init_user.py, a one-off bootstrap script whose imports do not exist in `app.py`, and the browser scripts under static/js, which handle the DOM, Leaflet and localStorage.
