/** Values that flow through the EXIF pipeline of app.py: the tag values
    Pillow hands over, the dictionary keys they are filed under, and the
    small string helpers (ASCII case mapping) the pipeline relies on. */
module Values {

  /** The conventional Some/None wrapper; usable with `:-`, which plays the
      part of a Python exception propagating up to the nearest `except`. */
  datatype Option<+T> = None | Some(value: T) {
    predicate IsFailure() { None? }

    function PropagateFailure<U>(): Option<U>
      requires None?
    {
      None
    }

    function Extract(): T
      requires Some?
    {
      value
    }
  }

  newtype byte = x: int | 0 <= x < 256

  /** A dictionary key after `TAGS.get(tag, tag)`: the tag's name when the
      lookup table knows the code, the numeric code itself otherwise. */
  datatype Key = Name(name: string) | Code(code: int)

  /** One EXIF value.
      - Int, Float: plain numbers (Python int and float);
      - Str, Bytes: text and byte strings;
      - Tuple: a Python tuple; a rational `(num, den)` is a 2-tuple of Ints;
      - Ifd: a dictionary as Pillow returns it, keyed by numeric tag codes,
        its entries in insertion order (the raw GPS block);
      - Dict: a dictionary keyed by decoded names (the GPS block after
        decoding). */
  datatype Value =
    | Int(i: int)
    | Float(x: real)
    | Str(s: string)
    | Bytes(b: seq<byte>)
    | Tuple(items: seq<Value>)
    | Ifd(entries: seq<(int, Value)>)
    | Dict(fields: map<Key, Value>)

  /** A raw EXIF block: the items of the dictionary `image._getexif()`
      returns, in insertion order. */
  type RawExif = seq<(int, Value)>

  /** The rational `(num, den)` as the 2-tuple older Pillow versions produce. */
  function Ratio(num: int, den: int): Value {
    Tuple([Int(num), Int(den)])
  }

  /** `table.get(code, code)` for a code-to-name table. */
  function DecodeKey(table: map<int, string>, code: int): (k: Key)
    ensures k.Name? <==> code in table
    ensures k.Name? ==> k.name == table[code]
    ensures k.Code? ==> k.code == code
  {
    if code in table then Name(table[code]) else Code(code)
  }

  function UpperChar(c: char): char {
    if 'a' <= c <= 'z' then (c as int - 32) as char else c
  }

  function LowerChar(c: char): char {
    if 'A' <= c <= 'Z' then (c as int + 32) as char else c
  }

  /** `str.upper()` restricted to ASCII letters. */
  function Upper(s: string): (r: string)
    ensures |r| == |s|
    ensures forall i :: 0 <= i < |s| ==> r[i] == UpperChar(s[i])
  {
    seq(|s|, i requires 0 <= i < |s| => UpperChar(s[i]))
  }

  /** `str.lower()` restricted to ASCII letters. */
  function Lower(s: string): (r: string)
    ensures |r| == |s|
    ensures forall i :: 0 <= i < |s| ==> r[i] == LowerChar(s[i])
  {
    seq(|s|, i requires 0 <= i < |s| => LowerChar(s[i]))
  }

  /** Upper-casing yields a one-letter reference exactly when the input is
      that letter in either case. */
  lemma UpperIsLetter(s: string, c: char)
    requires 'A' <= c <= 'Z'
    ensures Upper(s) == [c] <==> s == [c] || s == [(c as int + 32) as char]
  {
  }

  /** `bytes.decode()` for ASCII content; any byte of 0x80 or above is taken
      to raise (multi-byte UTF-8 is not modelled). */
  function DecodeAscii(b: seq<byte>): (r: Option<string>)
    ensures r.Some? <==> forall i :: 0 <= i < |b| ==> b[i] < 0x80
    ensures r.Some? ==> |r.value| == |b| && forall i :: 0 <= i < |b| ==> r.value[i] as int == b[i] as int
  {
    if forall i :: 0 <= i < |b| ==> b[i] < 0x80
    then Some(seq(|b|, i requires 0 <= i < |b| => b[i] as char))
    else None
  }
}
