/** The application/x-www-form-urlencoded serializer and parser of section 5
    of the WHATWG URL Standard, and the `URLSearchParams` object that holds a
    list of name-value pairs and serializes it. */
module FormUrlencoded {
  import opened Wrappers
  import opened CommonTypes
  import Utf8
  type byte = Utf8.byte

  const Amp: byte := 0x26
  const Eq: byte := 0x3D
  const Plus: byte := 0x2B
  const Percent: byte := 0x25
  const Space: byte := 0x20

  /** Bytes outside the application/x-www-form-urlencoded percent-encode set:
      ASCII letters and digits and `*`, `-`, `.`, `_`. */
  predicate IsUnreserved(b: byte) {
    || 0x30 <= b <= 0x39 || 0x41 <= b <= 0x5A || 0x61 <= b <= 0x7A
    || b == 0x2A || b == 0x2D || b == 0x2E || b == 0x5F
  }

  /** An upper-case hexadecimal digit. */
  function HexDigit(d: int): (c: char)
    requires 0 <= d < 16
    ensures c as int < 0x80
  {
    (if d < 10 then 0x30 + d else 0x37 + d) as char
  }

  /** One byte of the UTF-8 encoded input, encoded: a space becomes `+`, an
      unreserved byte stays itself, any other byte becomes `%HH`. */
  function EncodeByte(b: byte): (r: string)
    ensures forall i :: 0 <= i < |r| ==> r[i] as int < 0x80
  {
    if b == Space then "+"
    else if IsUnreserved(b) then [b as int as char]
    else ['%', HexDigit(b as int / 16), HexDigit(b as int % 16)]
  }

  function EncodeBytes(bs: seq<byte>): string {
    if bs == [] then "" else EncodeByte(bs[0]) + EncodeBytes(bs[1..])
  }

  /** Percent-encode after UTF-8 encoding, with space as plus. */
  function Encode(s: string): string {
    EncodeBytes(Utf8.Encode(s))
  }

  function Segment(name: string, value: string): string {
    Encode(name) + "=" + Encode(value)
  }

  /** The serializer: `name=value` segments joined by `&`, in list order. */
  function Serialize(list: QueryParams): string {
    if list == [] then ""
    else if |list| == 1 then Segment(list[0].0, list[0].1)
    else Segment(list[0].0, list[0].1) + "&" + Serialize(list[1..])
  }

  // ----- The parser (section 5.1 of the URL Standard) -----

  function PlusToSpace(bs: seq<byte>): (r: seq<byte>)
    ensures |r| == |bs|
  {
    if bs == [] then [] else [if bs[0] == Plus then Space else bs[0]] + PlusToSpace(bs[1..])
  }

  predicate IsHexByte(b: byte) {
    0x30 <= b <= 0x39 || 0x41 <= b <= 0x46 || 0x61 <= b <= 0x66
  }

  function HexValue(b: byte): (v: int)
    requires IsHexByte(b)
    ensures 0 <= v < 16
  {
    if b <= 0x39 then b as int - 0x30 else if b <= 0x46 then b as int - 0x37 else b as int - 0x57
  }

  /** Percent-decoding: `%` followed by two hexadecimal digits stands for
      one byte; every other byte stands for itself. */
  function PercentDecode(bs: seq<byte>): seq<byte> {
    if bs == [] then []
    else if bs[0] == Percent && |bs| >= 3 && IsHexByte(bs[1]) && IsHexByte(bs[2]) then
      [(HexValue(bs[1]) * 16 + HexValue(bs[2])) as byte] + PercentDecode(bs[3..])
    else
      [bs[0]] + PercentDecode(bs[1..])
  }

  /** Splits a byte sequence on every `sep`; the empty input gives one empty piece. */
  function Split(bs: seq<byte>, sep: byte): (r: seq<seq<byte>>)
    ensures |r| >= 1
  {
    if bs == [] then [[]]
    else
      var rest := Split(bs[1..], sep);
      if bs[0] == sep then [[]] + rest
      else [[bs[0]] + rest[0]] + rest[1..]
  }

  /** The bytes before the first `sep` and the bytes after it (all bytes and
      nothing when `sep` does not occur). */
  function SplitAtFirst(bs: seq<byte>, sep: byte): (seq<byte>, seq<byte>) {
    if bs == [] then ([], [])
    else if bs[0] == sep then ([], bs[1..])
    else
      var (name, value) := SplitAtFirst(bs[1..], sep);
      ([bs[0]] + name, value)
  }

  /** Plus to space, percent-decode, then UTF-8 decode (strictly). */
  function DecodeComponent(bs: seq<byte>): Option<string> {
    Utf8.Decode(PercentDecode(PlusToSpace(bs)))
  }

  function ParseSequences(sequences: seq<seq<byte>>): Option<QueryParams> {
    if sequences == [] then Some([])
    else if sequences[0] == [] then ParseSequences(sequences[1..])
    else
      var (name, value) := SplitAtFirst(sequences[0], Eq);
      match (DecodeComponent(name), DecodeComponent(value), ParseSequences(sequences[1..]))
      case (Some(n), Some(v), Some(rest)) => Some([(n, v)] + rest)
      case _ => None
  }

  /** The parser: split on `&`, skip empty pieces, split each on its first `=`
      and decode both halves. */
  function Parse(input: seq<byte>): Option<QueryParams> {
    ParseSequences(Split(input, Amp))
  }

  // ----- The serializer's output at the byte level -----

  function HexByte(d: int): (b: byte)
    requires 0 <= d < 16
    ensures IsHexByte(b) && HexValue(b) == d
  {
    if d < 10 then (0x30 + d) as byte else (0x37 + d) as byte
  }

  /** The bytes of `EncodeByte(b)`. */
  function ByteUnit(b: byte): seq<byte> {
    if b == Space then [Plus]
    else if IsUnreserved(b) then [b]
    else [Percent, HexByte(b as int / 16), HexByte(b as int % 16)]
  }

  function Units(bs: seq<byte>): seq<byte> {
    if bs == [] then [] else ByteUnit(bs[0]) + Units(bs[1..])
  }

  /** The bytes an encoded component consists of. */
  predicate IsUnitByte(x: byte) {
    x == Plus || x == Percent || IsUnreserved(x)
  }

  lemma ByteUnitIsEncoding(b: byte)
    ensures Utf8.Encode(EncodeByte(b)) == ByteUnit(b)
    ensures forall i :: 0 <= i < |ByteUnit(b)| ==> IsUnitByte(ByteUnit(b)[i])
  {
    var e := EncodeByte(b);
    Utf8.EncodeAscii(e);
  }

  lemma {:induction false} EncodeBytesAsUnits(bs: seq<byte>)
    ensures Utf8.Encode(EncodeBytes(bs)) == Units(bs)
    ensures forall i :: 0 <= i < |Units(bs)| ==> IsUnitByte(Units(bs)[i])
  {
    if bs != [] {
      ByteUnitIsEncoding(bs[0]);
      EncodeBytesAsUnits(bs[1..]);
      Utf8.EncodeAppend(EncodeByte(bs[0]), EncodeBytes(bs[1..]));
      var u, us := ByteUnit(bs[0]), Units(bs[1..]);
      assert Units(bs) == u + us;
      forall i | 0 <= i < |u + us| ensures IsUnitByte((u + us)[i]) {
        if i < |u| { assert (u + us)[i] == u[i]; } else { assert (u + us)[i] == us[i - |u|]; }
      }
    }
  }

  lemma PlusToSpaceAppend(a: seq<byte>, b: seq<byte>)
    ensures PlusToSpace(a + b) == PlusToSpace(a) + PlusToSpace(b)
  {
    if a == [] {
      assert a + b == b;
    } else {
      assert (a + b)[0] == a[0] && (a + b)[1..] == a[1..] + b;
      PlusToSpaceAppend(a[1..], b);
    }
  }

  /** Decoding one encoded byte gives the byte back, whatever follows. */
  lemma DecodeByteUnit(b: byte, rest: seq<byte>)
    ensures PercentDecode(PlusToSpace(ByteUnit(b)) + rest) == [b] + PercentDecode(rest)
  {
    var u := PlusToSpace(ByteUnit(b));
    if b == Space {
      assert u == [Space];
    } else if IsUnreserved(b) {
      assert u == [b];
      assert (u + rest)[1..] == rest;
    } else {
      var hi, lo := HexByte(b as int / 16), HexByte(b as int % 16);
      var bu := ByteUnit(b);
      assert bu == [Percent, hi, lo];
      assert bu[1..] == [hi, lo] && bu[1..][1..] == [lo] && bu[1..][1..][1..] == [];
      assert hi != Plus && lo != Plus;
      assert PlusToSpace([lo]) == [lo];
      assert PlusToSpace([hi, lo]) == [hi] + PlusToSpace([lo]);
      assert u == [Percent] + PlusToSpace([hi, lo]);
      assert (u + rest)[3..] == rest;
      assert HexValue(hi) * 16 + HexValue(lo) == b as int;
    }
  }

  /** Round trip at the byte level: the parser's decoding inverts the
      serializer's encoding of a component. */
  lemma {:induction false} DecodeUnits(bs: seq<byte>)
    ensures PercentDecode(PlusToSpace(Units(bs))) == bs
  {
    if bs != [] {
      PlusToSpaceAppend(ByteUnit(bs[0]), Units(bs[1..]));
      DecodeByteUnit(bs[0], PlusToSpace(Units(bs[1..])));
      DecodeUnits(bs[1..]);
      assert [bs[0]] + bs[1..] == bs;
    }
  }

  lemma {:induction false} SplitNoSep(a: seq<byte>, sep: byte)
    requires forall i :: 0 <= i < |a| ==> a[i] != sep
    ensures Split(a, sep) == [a]
  {
    if a != [] {
      SplitNoSep(a[1..], sep);
      assert [a[0]] + a[1..] == a;
    }
  }

  lemma {:induction false} SplitAfterPiece(a: seq<byte>, sep: byte, b: seq<byte>)
    requires forall i :: 0 <= i < |a| ==> a[i] != sep
    ensures Split(a + [sep] + b, sep) == [a] + Split(b, sep)
  {
    if a == [] {
      assert a + [sep] + b == [sep] + b;
      assert ([sep] + b)[1..] == b;
    } else {
      assert (a + [sep] + b)[1..] == a[1..] + [sep] + b;
      SplitAfterPiece(a[1..], sep, b);
      assert [a[0]] + a[1..] == a;
    }
  }

  lemma {:induction false} SplitAtFirstPiece(a: seq<byte>, sep: byte, b: seq<byte>)
    requires forall i :: 0 <= i < |a| ==> a[i] != sep
    ensures SplitAtFirst(a + [sep] + b, sep) == (a, b)
  {
    if a == [] {
      assert a + [sep] + b == [sep] + b;
      assert ([sep] + b)[1..] == b;
    } else {
      assert (a + [sep] + b)[1..] == a[1..] + [sep] + b;
      SplitAtFirstPiece(a[1..], sep, b);
      assert [a[0]] + a[1..] == a;
    }
  }

  /** The bytes of the segment `name=value`. */
  function SegmentBytes(name: string, value: string): seq<byte> {
    Units(Utf8.Encode(name)) + [Eq] + Units(Utf8.Encode(value))
  }

  function SegmentsBytes(list: QueryParams): (r: seq<seq<byte>>)
    ensures |r| == |list|
  {
    if list == [] then [] else [SegmentBytes(list[0].0, list[0].1)] + SegmentsBytes(list[1..])
  }

  lemma SegmentAsBytes(name: string, value: string)
    ensures Utf8.Encode(Segment(name, value)) == SegmentBytes(name, value)
    ensures forall i :: 0 <= i < |Units(Utf8.Encode(name))| ==> IsUnitByte(Units(Utf8.Encode(name))[i])
    ensures forall i :: 0 <= i < |Units(Utf8.Encode(value))| ==> IsUnitByte(Units(Utf8.Encode(value))[i])
  {
    Utf8.EncodeAppend(Encode(name) + "=", Encode(value));
    Utf8.EncodeAppend(Encode(name), "=");
    EncodeBytesAsUnits(Utf8.Encode(name));
    EncodeBytesAsUnits(Utf8.Encode(value));
  }

  /** Each entry becomes exactly one `&`-separated segment, in list order. */
  lemma {:induction false} SerializedSegments(list: QueryParams)
    requires list != []
    ensures Split(Utf8.Encode(Serialize(list)), Amp) == SegmentsBytes(list)
  {
    var name, value := list[0].0, list[0].1;
    SegmentAsBytes(name, value);
    var seg := SegmentBytes(name, value);
    var u1, u2 := Units(Utf8.Encode(name)), Units(Utf8.Encode(value));
    assert seg == u1 + [Eq] + u2;
    forall i | 0 <= i < |seg| ensures seg[i] != Amp {
      if i < |u1| { assert seg[i] == u1[i]; }
      else if i > |u1| { assert seg[i] == u2[i - |u1| - 1]; }
    }
    if |list| == 1 {
      SplitNoSep(seg, Amp);
      assert SegmentsBytes(list) == [seg] + SegmentsBytes(list[1..]);
    } else {
      var tail := Serialize(list[1..]);
      Utf8.EncodeAppend(Segment(name, value) + "&", tail);
      Utf8.EncodeAppend(Segment(name, value), "&");
      assert Utf8.Encode(Serialize(list)) == seg + [Amp] + Utf8.Encode(tail);
      SplitAfterPiece(seg, Amp, Utf8.Encode(tail));
      SerializedSegments(list[1..]);
    }
  }

  lemma DecodeComponentOfUnits(s: string)
    ensures DecodeComponent(Units(Utf8.Encode(s))) == Some(s)
  {
    DecodeUnits(Utf8.Encode(s));
    Utf8.DecodeEncode(s);
  }

  /** One segment in front of pieces that parse: its pair goes in front of
      theirs. */
  lemma ParseSegmentHead(name: string, value: string, rest: seq<seq<byte>>)
    requires ParseSequences(rest).Some?
    ensures ParseSequences([SegmentBytes(name, value)] + rest) == Some([(name, value)] + ParseSequences(rest).value)
  {
    SegmentAsBytes(name, value);
    var u1, u2 := Units(Utf8.Encode(name)), Units(Utf8.Encode(value));
    var pieces := [SegmentBytes(name, value)] + rest;
    assert pieces[0] == u1 + [Eq] + u2 && pieces[1..] == rest;
    SplitAtFirstPiece(u1, Eq, u2);
    DecodeComponentOfUnits(name);
    DecodeComponentOfUnits(value);
  }

  lemma {:induction false} ParseSegments(list: QueryParams)
    ensures ParseSequences(SegmentsBytes(list)) == Some(list)
  {
    if list != [] {
      ParseSegments(list[1..]);
      ParseSegmentHead(list[0].0, list[0].1, SegmentsBytes(list[1..]));
      assert [(list[0].0, list[0].1)] + list[1..] == list;
    }
  }

  /** Round trip: parsing the serialization (after UTF-8 encoding, as
      `new URLSearchParams(string)` does) gives back every pair, in order. */
  lemma ParseSerialize(list: QueryParams)
    ensures Parse(Utf8.Encode(Serialize(list))) == Some(list)
  {
    if list == [] {
      assert Utf8.Encode(Serialize(list)) == [];
      var pieces: seq<seq<byte>> := [[]];
      assert Split([], Amp) == pieces && pieces[1..] == [];
    } else {
      SerializedSegments(list);
      ParseSegments(list);
    }
  }

  // ----- The characters the serializer produces -----

  /** The characters a serialization can contain: letters, digits and
      `*`, `-`, `.`, `_`, `+`, `%`, `&`, `=`. */
  predicate InOutputAlphabet(c: char) {
    || ('0' <= c <= '9') || ('A' <= c <= 'Z') || ('a' <= c <= 'z')
    || c == '*' || c == '-' || c == '.' || c == '_' || c == '+' || c == '%' || c == '&' || c == '='
  }

  /** One encoded byte: a `+`, an unreserved character or `%HH`. */
  lemma EncodeByteAlphabet(b: byte)
    ensures forall c :: c in EncodeByte(b) ==> InOutputAlphabet(c) && c != '&' && c != '='
  {
    if b != Space && !IsUnreserved(b) {
      var hi, lo := b as int / 16, b as int % 16;
      assert EncodeByte(b) == ['%', HexDigit(hi), HexDigit(lo)];
    }
  }

  lemma {:induction false} EncodeBytesAlphabet(bs: seq<byte>)
    ensures forall c :: c in EncodeBytes(bs) ==> InOutputAlphabet(c) && c != '&' && c != '='
  {
    if bs != [] {
      EncodeByteAlphabet(bs[0]);
      EncodeBytesAlphabet(bs[1..]);
    }
  }

  lemma {:induction false} SerializeAlphabet(list: QueryParams)
    ensures forall c :: c in Serialize(list) ==> InOutputAlphabet(c)
  {
    if list != [] {
      EncodeBytesAlphabet(Utf8.Encode(list[0].0));
      EncodeBytesAlphabet(Utf8.Encode(list[0].1));
      if |list| > 1 {
        SerializeAlphabet(list[1..]);
      }
    }
  }

  /** A non-empty list never serializes to the empty string. */
  lemma SerializeNonEmpty(list: QueryParams)
    requires list != []
    ensures Serialize(list) != ""
    ensures '=' in Serialize(list)
  {
    var seg := Segment(list[0].0, list[0].1);
    assert seg[|Encode(list[0].0)|] == '=';
    if |list| > 1 {
      assert Serialize(list)[|Encode(list[0].0)|] == '=';
    }
  }

  /** `URLSearchParams`: an ordered list of name-value pairs. */
  class SearchParams {
    var list: QueryParams

    /** `new URLSearchParams()`: the empty list. */
    constructor ()
      ensures list == []
    {
      list := [];
    }

    /** A search-params object initialised with the given pairs. */
    constructor FromList(pairs: QueryParams)
      ensures list == pairs
    {
      list := pairs;
    }

    /** `append(name, value)`: adds the pair at the end; earlier pairs, even
        with the same name, stay. */
    method Append(name: string, value: string)
      modifies this
      ensures list == old(list) + [(name, value)]
    {
      list := list + [(name, value)];
    }

    /** `toString()`: the serialization of the list. */
    function ToString(): (s: string)
      reads this
      ensures Parse(Utf8.Encode(s)) == Some(list)
    {
      ParseSerialize(list);
      Serialize(list)
    }
  }
}
