/** Tag decoding (`get_exif_data`, app.py:20-34): the raw EXIF dictionary,
    keyed by numeric tag codes, is re-keyed by tag name through the TAGS
    table; the GPS block found under "GPSInfo" is re-keyed one level deeper
    through the GPSTAGS table. Both tables are parameters. */
module ExifTags {
  import opened Values

  const GpsInfoKey: Key := Name("GPSInfo")

  /** The dictionary built by `for t, v in entries: d[table.get(t, t)] = v`:
      entries are written in order, so a later entry whose code decodes to
      the same key overwrites an earlier one. */
  function Rekey(entries: seq<(int, Value)>, table: map<int, string>): map<Key, Value>
  {
    if entries == [] then map[]
    else
      var last := entries[|entries| - 1];
      Rekey(entries[..|entries| - 1], table)[DecodeKey(table, last.0) := last.1]
  }

  /** Entry i is the last one whose code decodes to its key. */
  ghost predicate LastFor(entries: seq<(int, Value)>, table: map<int, string>, i: int)
    requires 0 <= i < |entries|
  {
    forall j :: i < j < |entries| ==> DecodeKey(table, entries[j].0) != DecodeKey(table, entries[i].0)
  }

  /** The keys of the re-keyed dictionary are exactly the decoded codes. */
  lemma {:induction false} RekeyKeys(entries: seq<(int, Value)>, table: map<int, string>)
    ensures Rekey(entries, table).Keys == set i | 0 <= i < |entries| :: DecodeKey(table, entries[i].0)
  {
    if entries != [] {
      var n := |entries| - 1;
      var front := entries[..n];
      RekeyKeys(front, table);
      var all := set i | 0 <= i < |entries| :: DecodeKey(table, entries[i].0);
      var head := set i | 0 <= i < n :: DecodeKey(table, front[i].0);
      assert all == head + {DecodeKey(table, entries[n].0)} by {
        forall k | k in all ensures k in head + {DecodeKey(table, entries[n].0)} {
          var i :| 0 <= i < |entries| && k == DecodeKey(table, entries[i].0);
          if i < n { assert front[i] == entries[i]; }
        }
        forall k | k in head ensures k in all {
          var i :| 0 <= i < n && k == DecodeKey(table, front[i].0);
          assert front[i] == entries[i];
        }
      }
    }
  }

  /** The value filed under an entry's key is that entry's own value, unchanged,
      provided no later entry decodes to the same key. */
  lemma {:induction false} RekeyLastWriter(entries: seq<(int, Value)>, table: map<int, string>, i: int)
    requires 0 <= i < |entries| && LastFor(entries, table, i)
    ensures DecodeKey(table, entries[i].0) in Rekey(entries, table)
    ensures Rekey(entries, table)[DecodeKey(table, entries[i].0)] == entries[i].1
  {
    var n := |entries| - 1;
    if i < n {
      var front := entries[..n];
      assert front[i] == entries[i];
      assert LastFor(front, table, i) by {
        forall j | i < j < |front|
          ensures DecodeKey(table, front[j].0) != DecodeKey(table, front[i].0)
        {
          assert front[j] == entries[j];
        }
      }
      RekeyLastWriter(front, table, i);
      assert DecodeKey(table, entries[n].0) != DecodeKey(table, entries[i].0);
    }
  }

  /** The value an entry contributes to the top level: the GPS block is
      re-keyed through the GPS table, everything else is kept as is. */
  function Resolve(entry: (int, Value), tags: map<int, string>, gpsTags: map<int, string>): Value
  {
    if DecodeKey(tags, entry.0) == GpsInfoKey && entry.1.Ifd?
    then Dict(Rekey(entry.1.entries, gpsTags))
    else entry.1
  }

  function ResolveAll(entries: RawExif, tags: map<int, string>, gpsTags: map<int, string>): (r: RawExif)
    ensures |r| == |entries|
    ensures forall i :: 0 <= i < |entries| ==> r[i] == (entries[i].0, Resolve(entries[i], tags, gpsTags))
  {
    seq(|entries|, i requires 0 <= i < |entries| => (entries[i].0, Resolve(entries[i], tags, gpsTags)))
  }

  /** Iterating a non-dictionary value under "GPSInfo" raises in Python
      (Pillow always hands over a dictionary there). */
  predicate GpsRaises(entries: RawExif, tags: map<int, string>)
  {
    exists i :: 0 <= i < |entries| && DecodeKey(tags, entries[i].0) == GpsInfoKey && !entries[i].1.Ifd?
  }

  /** What `get_exif_data` returns for the result `info` of `_getexif()`;
      None stands for the exception it raises. */
  function DecodeExif(info: Option<RawExif>, tags: map<int, string>, gpsTags: map<int, string>): Option<map<Key, Value>>
  {
    if info.None? || info.value == [] then Some(map[])
    else if GpsRaises(info.value, tags) then None
    else Some(Rekey(ResolveAll(info.value, tags, gpsTags), tags))
  }

  /** `get_exif_data`: the two nested dictionary-building loops. */
  method GetExifData(info: Option<RawExif>, tags: map<int, string>, gpsTags: map<int, string>)
    returns (r: Option<map<Key, Value>>)
    ensures r == DecodeExif(info, tags, gpsTags)
    ensures info.None? || info == Some([]) ==> r == Some(map[])
    ensures r.None? <==> info.Some? && GpsRaises(info.value, tags)
  {
    var exifData: map<Key, Value> := map[];
    if info.Some? && info.value != [] {
      var entries := info.value;
      ghost var resolved := ResolveAll(entries, tags, gpsTags);
      var i := 0;
      while i < |entries|
        invariant 0 <= i <= |entries|
        invariant exifData == Rekey(resolved[..i], tags)
        invariant forall k :: 0 <= k < i ==> DecodeKey(tags, entries[k].0) == GpsInfoKey ==> entries[k].1.Ifd?
      {
        var (tag, value) := entries[i];
        var decoded := DecodeKey(tags, tag);
        if decoded == GpsInfoKey {
          if !value.Ifd? {
            return None;
          }
          var gpsData: map<Key, Value> := map[];
          var j := 0;
          while j < |value.entries|
            invariant 0 <= j <= |value.entries|
            invariant gpsData == Rekey(value.entries[..j], gpsTags)
          {
            var (t, sub) := value.entries[j];
            gpsData := gpsData[DecodeKey(gpsTags, t) := sub];
            assert value.entries[..j + 1][..j] == value.entries[..j];
            j := j + 1;
          }
          assert value.entries[..j] == value.entries;
          exifData := exifData[decoded := Dict(gpsData)];
        } else {
          exifData := exifData[decoded := value];
        }
        assert resolved[..i + 1][..i] == resolved[..i];
        i := i + 1;
      }
      assert resolved[..i] == resolved;
    }
    return Some(exifData);
  }

  /** Every top-level key is `TAGS.get(tag, tag)` of some raw code, and every
      such key is present. */
  lemma DecodedKeys(entries: RawExif, tags: map<int, string>, gpsTags: map<int, string>)
    requires DecodeExif(Some(entries), tags, gpsTags).Some?
    ensures DecodeExif(Some(entries), tags, gpsTags).value.Keys
         == set i | 0 <= i < |entries| :: DecodeKey(tags, entries[i].0)
  {
    var resolved := ResolveAll(entries, tags, gpsTags);
    RekeyKeys(resolved, tags);
    assert (set i | 0 <= i < |resolved| :: DecodeKey(tags, resolved[i].0))
        == set i | 0 <= i < |entries| :: DecodeKey(tags, entries[i].0);
  }

  /** A value not filed under "GPSInfo" is copied unchanged; the value filed
      under "GPSInfo" is the GPS block re-keyed through the GPS table, its
      sub-values unchanged. Both hold for the last entry of each key. */
  lemma DecodedValue(entries: RawExif, tags: map<int, string>, gpsTags: map<int, string>, i: int)
    requires DecodeExif(Some(entries), tags, gpsTags).Some?
    requires 0 <= i < |entries| && LastFor(entries, tags, i)
    ensures var m := DecodeExif(Some(entries), tags, gpsTags).value;
            var k := DecodeKey(tags, entries[i].0);
            && k in m
            && (k != GpsInfoKey ==> m[k] == entries[i].1)
            && (k == GpsInfoKey ==> entries[i].1.Ifd? && m[k] == Dict(Rekey(entries[i].1.entries, gpsTags)))
  {
    var resolved := ResolveAll(entries, tags, gpsTags);
    assert LastFor(resolved, tags, i) by {
      forall j | i < j < |resolved|
        ensures DecodeKey(tags, resolved[j].0) != DecodeKey(tags, resolved[i].0)
      {
        assert resolved[j].0 == entries[j].0;
      }
    }
    RekeyLastWriter(resolved, tags, i);
  }

  /** The decoded GPS block: its keys are `GPSTAGS.get(t, t)` of the raw
      sub-codes, and each holds the original sub-value of the last sub-entry
      with that key. */
  lemma GpsBlock(block: seq<(int, Value)>, gpsTags: map<int, string>, j: int)
    requires 0 <= j < |block| && LastFor(block, gpsTags, j)
    ensures Rekey(block, gpsTags).Keys == set t | 0 <= t < |block| :: DecodeKey(gpsTags, block[t].0)
    ensures Rekey(block, gpsTags)[DecodeKey(gpsTags, block[j].0)] == block[j].1
  {
    RekeyKeys(block, gpsTags);
    RekeyLastWriter(block, gpsTags, j);
  }
}
