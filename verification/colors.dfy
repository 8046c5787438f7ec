/** `parse_color` of png_expand.py: a colour specification string becomes
    nothing (empty input), an RGBA colour, or an error. The alternatives are
    tried in a fixed order: empty, name, `#` hex, comma list, error. */
module Colors {
  import opened Wrappers
  import opened Text
  import opened Numerals

  /** An RGBA 4-tuple. Components are unbounded: the comma branch does not
      check their range. */
  datatype Color = Color(r: int, g: int, b: int, a: int)

  const Clear := Color(0, 0, 0, 0)
  const White := Color(255, 255, 255, 255)

  predicate IsByte(v: int) {
    0 <= v < 256
  }

  predicate IsByteColor(c: Color) {
    IsByte(c.r) && IsByte(c.g) && IsByte(c.b) && IsByte(c.a)
  }

  /** The fixed table of 13 colour names, keyed in lower case. */
  const NameTable: map<string, Color> := map[
    "black" := Color(0, 0, 0, 255),
    "white" := Color(255, 255, 255, 255),
    "red" := Color(255, 0, 0, 255),
    "green" := Color(0, 255, 0, 255),
    "blue" := Color(0, 0, 255, 255),
    "yellow" := Color(255, 255, 0, 255),
    "cyan" := Color(0, 255, 255, 255),
    "magenta" := Color(255, 0, 255, 255),
    "gray" := Color(128, 128, 128, 255),
    "lightgray" := Color(211, 211, 211, 255),
    "darkgray" := Color(64, 64, 64, 255),
    "transparent" := Color(0, 0, 0, 0),
    "clear" := Color(0, 0, 0, 0)
  ]

  predicate IsLowerWord(k: string) {
    |k| > 0 && forall i :: 0 <= i < |k| ==> 'a' <= k[i] <= 'z'
  }

  const Names: set<string> := {"black", "white", "red", "green", "blue", "yellow", "cyan",
                               "magenta", "gray", "lightgray", "darkgray", "transparent", "clear"}

  /** The table has exactly the 13 names as keys. */
  lemma NameTableKeys()
    ensures NameTable.Keys == Names
  {
  }

  /** Every name is a non-empty word of lower-case letters. */
  lemma NamesAreWords()
    ensures forall k :: k in Names ==> IsLowerWord(k)
  {
    assert IsLowerWord("black") && IsLowerWord("white") && IsLowerWord("red");
    assert IsLowerWord("green") && IsLowerWord("blue") && IsLowerWord("yellow");
    assert IsLowerWord("cyan") && IsLowerWord("magenta") && IsLowerWord("gray");
    assert IsLowerWord("lightgray") && IsLowerWord("darkgray");
    assert IsLowerWord("transparent") && IsLowerWord("clear");
  }

  /** A string that starts with a character other than a lower-case letter,
      or that holds a non-letter anywhere, is not a key of the table. */
  lemma NotAName(s: string, i: nat)
    requires i < |s| && !('a' <= s[i] <= 'z')
    ensures s !in NameTable
  {
    NameTableKeys();
    NamesAreWords();
  }

  /** Every named colour is a colour of bytes. */
  lemma NameColorsAreBytes()
    ensures forall k :: k in NameTable ==> IsByteColor(NameTable[k])
  {
  }

  /** The two reasons `parse_color` raises `ValueError`: `int(..., 16)`
      rejecting a pair of the hex branch, and the final catch-all. */
  datatype ColorError =
    | InvalidHexLiteral(literal: string)
    | InvalidColorFormat(spec: string)

  /** `int(hex[k..k+2], 16)`, raising on a malformed pair. */
  function HexComponent(hex: string, k: nat): (r: Result<int, ColorError>)
    requires k + 2 <= |hex|
    ensures r.Success? ==> -15 <= r.value < 256
    ensures IsHexDigit(hex[k]) && IsHexDigit(hex[k + 1]) ==>
              r.Success? && r.value == 16 * HexDigitValue(hex[k]) + HexDigitValue(hex[k + 1])
    ensures r.Success? ==> HexLiteralChar(hex[k]) && HexLiteralChar(hex[k + 1])
    ensures r.Failure? ==> r.error == InvalidHexLiteral(hex[k..k + 2])
  {
    match ParseHexPair(hex[k..k + 2])
    case Some(v) => Success(v)
    case None => Failure(InvalidHexLiteral(hex[k..k + 2]))
  }

  /** The body of the hex branch: six characters give an opaque colour,
      eight give one whose alpha is the fourth pair. The first malformed pair,
      in the order red, green, blue, alpha, is the one reported. */
  function ParseHex(hex: string): (r: Result<Color, ColorError>)
    requires |hex| == 6 || |hex| == 8
    ensures r.Success? && |hex| == 6 ==> r.value.a == 255
    ensures r.Success? ==> -15 <= r.value.r < 256 && -15 <= r.value.g < 256 && -15 <= r.value.b < 256
    ensures r.Success? ==> -15 <= r.value.a < 256
    ensures (forall i :: 0 <= i < |hex| ==> IsHexDigit(hex[i])) ==> r.Success? && IsByteColor(r.value)
    ensures r.Success? ==> forall i :: 0 <= i < |hex| ==> HexLiteralChar(hex[i])
    ensures r.Failure? ==> r.error.InvalidHexLiteral?
  {
    var red :- HexComponent(hex, 0);
    var green :- HexComponent(hex, 2);
    var blue :- HexComponent(hex, 4);
    var alpha :- if |hex| == 8 then HexComponent(hex, 6) else Success(255);
    Success(Color(red, green, blue, alpha))
  }

  /** `[int(x.strip()) for x in parts]`; None when some part is not an integer. */
  function ParseInts(parts: seq<string>): (r: Option<seq<int>>)
    ensures r.Some? ==> |r.value| == |parts|
    ensures r.Some? ==> forall i :: 0 <= i < |parts| ==> ParseInt(Strip(parts[i])) == Some(r.value[i])
    ensures r.None? ==> exists i :: 0 <= i < |parts| && ParseInt(Strip(parts[i])).None?
    ensures (forall i :: 0 <= i < |parts| ==> ParseInt(Strip(parts[i])).Some?) ==> r.Some?
  {
    if parts == [] then Some([])
    else
      match ParseInt(Strip(parts[0]))
      case None => None
      case Some(v) =>
        match ParseInts(parts[1..])
        case None => None
        case Some(vs) => Some([v] + vs)
  }

  /** The comma branch: three integers give an opaque colour, four keep the
      given alpha; None (the branch falls through to the final error) for any
      other count or any part that is not an integer. */
  function ParseList(spec: string): (r: Option<Color>)
    ensures r.Some? <==>
              && (|Split(spec, ',')| == 3 || |Split(spec, ',')| == 4)
              && forall i :: 0 <= i < |Split(spec, ',')| ==> ParseInt(Strip(Split(spec, ',')[i])).Some?
    ensures r.Some? ==>
              var parts := Split(spec, ',');
              && ParseInt(Strip(parts[0])) == Some(r.value.r)
              && ParseInt(Strip(parts[1])) == Some(r.value.g)
              && ParseInt(Strip(parts[2])) == Some(r.value.b)
              && (if |parts| == 4 then ParseInt(Strip(parts[3])) == Some(r.value.a) else r.value.a == 255)
  {
    match ParseInts(Split(spec, ','))
    case None => None
    case Some(vs) =>
      if |vs| == 3 then Some(Color(vs[0], vs[1], vs[2], 255))
      else if |vs| == 4 then Some(Color(vs[0], vs[1], vs[2], vs[3]))
      else None
  }

  predicate StartsWithHash(spec: string) {
    |spec| > 0 && spec[0] == '#'
  }

  /** `parse_color`. */
  function ParseColor(spec: string): (r: Result<Option<Color>, ColorError>)
    ensures r == Success(None) <==> spec == []
    ensures Lower(spec) in NameTable ==> r.Success?
    ensures r.Success? && r.value.Some? ==>
              || Lower(spec) in NameTable
              || (StartsWithHash(spec) && (|spec| == 7 || |spec| == 9))
              || (',' in spec && (|Split(spec, ',')| == 3 || |Split(spec, ',')| == 4))
    ensures r.Success? && r.value.Some? && ',' !in spec ==> InHexRange(r.value.value)
    ensures r.Failure? && r.error.InvalidHexLiteral? ==> StartsWithHash(spec) && (|spec| == 7 || |spec| == 9)
    ensures r.Failure? && r.error.InvalidColorFormat? ==> r.error.spec == spec
  {
    NameColorsAreBytes();
    if spec == [] then Success(None)
    else if Lower(spec) in NameTable then Success(Some(NameTable[Lower(spec)]))
    else if StartsWithHash(spec) && (|spec| - 1 == 6 || |spec| - 1 == 8) then
      match ParseHex(spec[1..])
      case Success(c) => Success(Some(c))
      case Failure(e) => Failure(e)
    else if ',' in spec && ParseList(spec).Some? then Success(Some(ParseList(spec).value))
    else Failure(InvalidColorFormat(spec))
  }

  /** Every component lies in -15..255, the values `int(p, 16)` can give
      for a two-character `p`. */
  predicate InHexRange(c: Color) {
    -15 <= c.r < 256 && -15 <= c.g < 256 && -15 <= c.b < 256 && -15 <= c.a < 256
  }

  /** The catch-all: not empty, not a name, not hex-shaped, not a list. */
  lemma FallsThroughToError(spec: string)
    requires spec != [] && Lower(spec) !in NameTable
    requires !(StartsWithHash(spec) && (|spec| == 7 || |spec| == 9))
    requires ParseList(spec).None?
    ensures ParseColor(spec) == Failure(InvalidColorFormat(spec))
  {
  }

  /** Lower-casing keeps a character that is not an upper-case letter. */
  lemma LowerKeeps(s: string, i: nat)
    requires i < |s| && !IsUpper(s[i])
    ensures Lower(s)[i] == s[i]
  {
  }

  /** Names are looked up ignoring ASCII case, before every other
      alternative: spellings that differ only in case give the same named
      colour, and it is a colour of bytes. */
  lemma NameLookupIgnoresCase(s: string, t: string)
    requires Lower(s) == Lower(t) && Lower(s) in NameTable
    ensures ParseColor(s) == ParseColor(t) == Success(Some(NameTable[Lower(s)]))
    ensures IsByteColor(NameTable[Lower(s)])
  {
    NameTableKeys();
    NamesAreWords();
    NameColorsAreBytes();
  }

  /** A `#` specification can never be read as a comma list: its first
      piece starts with `#`, which `int` rejects. */
  lemma HashSpecNotAList(spec: string)
    requires StartsWithHash(spec)
    ensures ParseList(spec).None?
  {
    var parts := Split(spec, ',');
    JoinStartsWithFirst(parts, ',');
    assert parts[0][0] == '#' by {
      assert spec[..|parts[0]|] == parts[0];
    }
    assert ParseInt(Strip(parts[0])).None?;
  }

  /** Whatever follows a `#`, success means the hex branch produced the
      colour: the specification has 6 or 8 characters after the `#` and every
      component is a value `int(p, 16)` can give. */
  lemma HashSpecInHexRange(spec: string)
    requires StartsWithHash(spec)
    requires ParseColor(spec).Success? && ParseColor(spec).value.Some?
    ensures |spec| == 7 || |spec| == 9
    ensures InHexRange(ParseColor(spec).value.value)
    ensures |spec| == 7 ==> ParseColor(spec).value.value.a == 255
  {
    NotAName(Lower(spec), 0);
    HashSpecNotAList(spec);
    HashBranchValue(spec);
  }

  /** What a `#` specification gives: the hex branch's result when it has
      6 or 8 characters after the `#`, the format error otherwise. */
  lemma HashBranchValue(spec: string)
    requires StartsWithHash(spec)
    ensures |spec| != 7 && |spec| != 9 ==> ParseColor(spec) == Failure(InvalidColorFormat(spec))
    ensures (|spec| == 7 || |spec| == 9) && ParseHex(spec[1..]).Success? ==>
              ParseColor(spec) == Success(Some(ParseHex(spec[1..]).value))
    ensures (|spec| == 7 || |spec| == 9) && ParseHex(spec[1..]).Failure? ==>
              ParseColor(spec) == Failure(ParseHex(spec[1..]).error)
  {
    NotAName(Lower(spec), 0);
    if |spec| == 7 || |spec| == 9 {
      HexShapedValue(spec);
    } else {
      HashSpecNotAList(spec);
      FallsThroughToError(spec);
    }
  }

  /** A hex-shaped specification that is not a name gets the hex branch's
      result. */
  lemma HexShapedValue(spec: string)
    requires Lower(spec) !in NameTable && StartsWithHash(spec) && (|spec| == 7 || |spec| == 9)
    ensures ParseHex(spec[1..]).Success? ==> ParseColor(spec) == Success(Some(ParseHex(spec[1..]).value))
    ensures ParseHex(spec[1..]).Failure? ==> ParseColor(spec) == Failure(ParseHex(spec[1..]).error)
  {
  }

  /** `#` followed by 6 or 8 hex digits gives the colour whose components
      are the values of the successive pairs, alpha 255 when there are only
      three pairs; every component is a byte. */
  lemma HexDigitsGiveBytes(spec: string)
    requires StartsWithHash(spec) && (|spec| == 7 || |spec| == 9)
    requires forall i :: 1 <= i < |spec| ==> IsHexDigit(spec[i])
    ensures ParseColor(spec).Success? && ParseColor(spec).value.Some?
    ensures var c := ParseColor(spec).value.value;
              && IsByteColor(c)
              && c.r == 16 * HexDigitValue(spec[1]) + HexDigitValue(spec[2])
              && c.g == 16 * HexDigitValue(spec[3]) + HexDigitValue(spec[4])
              && c.b == 16 * HexDigitValue(spec[5]) + HexDigitValue(spec[6])
              && c.a == (if |spec| == 9 then 16 * HexDigitValue(spec[7]) + HexDigitValue(spec[8]) else 255)
  {
    NotAName(Lower(spec), 0);
    var hex := spec[1..];
    assert forall i :: 0 <= i < |hex| ==> IsHexDigit(hex[i]);
  }

  /** A `#` specification of any other length is an error: it falls through
      the hex branch and cannot be a comma list. */
  lemma HashOfWrongLengthIsError(spec: string)
    requires StartsWithHash(spec) && |spec| != 7 && |spec| != 9
    ensures ParseColor(spec) == Failure(InvalidColorFormat(spec))
  {
    NotAName(Lower(spec), 0);
    HashSpecNotAList(spec);
    FallsThroughToError(spec);
  }

  /** A string that is not a name and holds neither a leading `#` nor a
      comma is an error. */
  lemma UnknownWordIsError(spec: string)
    requires spec != [] && Lower(spec) !in NameTable
    requires !StartsWithHash(spec) && ',' !in spec
    ensures ParseColor(spec) == Failure(InvalidColorFormat(spec))
  {
  }

  /** Lower-casing keeps commas, so no comma-holding string is a name. */
  lemma CommaSpecNotAName(spec: string)
    requires ',' in spec
    ensures Lower(spec) !in NameTable
  {
    var i :| 0 <= i < |spec| && spec[i] == ',';
    NotAName(Lower(spec), i);
  }

  /** A comma list whose count is not 3 or 4 is an error; unless it has the
      shape of a hex specification it is the format error. */
  lemma WrongCountIsError(spec: string)
    requires ',' in spec
    requires |Split(spec, ',')| != 3 && |Split(spec, ',')| != 4
    ensures ParseColor(spec).Failure?
    ensures !(StartsWithHash(spec) && (|spec| == 7 || |spec| == 9)) ==>
              ParseColor(spec) == Failure(InvalidColorFormat(spec))
  {
    assert ParseList(spec).None?;
    NoListIsError(spec);
  }

  /** A comma list with a piece that is not an integer is an error; unless
      it has the shape of a hex specification it is the format error. */
  lemma NonIntegerPartIsError(spec: string, k: nat)
    requires ',' in spec
    requires k < |Split(spec, ',')| && ParseInt(Strip(Split(spec, ',')[k])).None?
    ensures ParseColor(spec).Failure?
    ensures !(StartsWithHash(spec) && (|spec| == 7 || |spec| == 9)) ==>
              ParseColor(spec) == Failure(InvalidColorFormat(spec))
  {
    PartSpoilsList(spec, k);
    NoListIsError(spec);
  }

  /** One piece that is not an integer makes the whole list fail. */
  lemma PartSpoilsList(spec: string, k: nat)
    requires k < |Split(spec, ',')| && ParseInt(Strip(Split(spec, ',')[k])).None?
    ensures ParseInts(Split(spec, ',')).None? && ParseList(spec).None?
  {
    ParseIntsFails(Split(spec, ','), k);
    NoValuesNoList(spec);
  }

  lemma ParseIntsFails(parts: seq<string>, k: nat)
    requires k < |parts| && ParseInt(Strip(parts[k])).None?
    ensures ParseInts(parts).None?
  {
  }

  lemma NoValuesNoList(spec: string)
    requires ParseInts(Split(spec, ',')).None?
    ensures ParseList(spec).None?
  {
  }

  /** A comma-holding string that is not a valid list is an error. */
  lemma NoListIsError(spec: string)
    requires ',' in spec && ParseList(spec).None?
    ensures ParseColor(spec).Failure?
    ensures !(StartsWithHash(spec) && (|spec| == 7 || |spec| == 9)) ==>
              ParseColor(spec) == Failure(InvalidColorFormat(spec))
  {
    CommaSpecNotAName(spec);
    if StartsWithHash(spec) && (|spec| == 7 || |spec| == 9) {
      CommaNotInHex(spec);
    } else {
      FallsThroughToError(spec);
    }
  }

  /** The hex branch never accepts a comma. */
  lemma CommaNotInHex(spec: string)
    requires ',' in spec && StartsWithHash(spec) && (|spec| == 7 || |spec| == 9)
    ensures ParseHex(spec[1..]).Failure?
    ensures ParseColor(spec).Failure? && ParseColor(spec).error.InvalidHexLiteral?
  {
    NotAName(Lower(spec), 0);
    var i :| 0 <= i < |spec| && spec[i] == ',';
    assert spec[1..][i - 1] == ',';
  }

  /** `#rrggbb` or `#rrggbbaa` for a colour of bytes, in either case. */
  function HexSpec(c: Color, upper: bool, withAlpha: bool): (spec: string)
    requires IsByteColor(c)
  {
    "#" + HexDigits(c, upper, withAlpha)
  }

  /** The digits after the `#`: two per component, alpha last when present. */
  function HexDigits(c: Color, upper: bool, withAlpha: bool): (hex: string)
    requires IsByteColor(c)
    ensures |hex| == (if withAlpha then 8 else 6)
  {
    HexByte(c.r, upper) + HexByte(c.g, upper) + HexByte(c.b, upper)
      + (if withAlpha then HexByte(c.a, upper) else "")
  }

  /** Every colour of bytes written in hex, upper or lower case, parses back
      to itself; the six-digit form does so exactly for opaque colours. */
  lemma HexRoundTrip(c: Color, upper: bool, withAlpha: bool)
    requires IsByteColor(c)
    requires withAlpha || c.a == 255
    ensures ParseColor(HexSpec(c, upper, withAlpha)) == Success(Some(c))
  {
    var hex := HexDigits(c, upper, withAlpha);
    var spec := HexSpec(c, upper, withAlpha);
    assert spec[0] == '#' && spec[1..] == hex;
    NotAName(Lower(spec), 0);
    HexDigitsParse(c, upper, withAlpha);
    HexBranch(spec);
  }

  /** The hex branch on its own reads the digits back. */
  lemma HexDigitsParse(c: Color, upper: bool, withAlpha: bool)
    requires IsByteColor(c)
    requires withAlpha || c.a == 255
    ensures ParseHex(HexDigits(c, upper, withAlpha)) == Success(c)
  {
    var tail := if withAlpha then HexByte(c.a, upper) else "";
    var hex := HexDigits(c, upper, withAlpha);
    PairSlices(HexByte(c.r, upper), HexByte(c.g, upper), HexByte(c.b, upper), tail);
    HexByteRoundTrip(c.r, upper);
    HexByteRoundTrip(c.g, upper);
    HexByteRoundTrip(c.b, upper);
    if withAlpha {
      assert hex[6..8] == tail;
      HexByteRoundTrip(c.a, upper);
    }
  }

  /** A `#` specification of the right length that is not a name gives the
      colour of its hex digits when they parse. */
  lemma HexBranch(spec: string)
    requires Lower(spec) !in NameTable && StartsWithHash(spec) && (|spec| == 7 || |spec| == 9)
    requires ParseHex(spec[1..]).Success?
    ensures ParseColor(spec) == Success(Some(ParseHex(spec[1..]).value))
  {
  }

  lemma PairSlices(p: string, q: string, r: string, t: string)
    requires |p| == 2 && |q| == 2 && |r| == 2
    ensures var s := p + q + r + t;
              s[0..2] == p && s[2..4] == q && s[4..6] == r && s[6..] == t
  {
    var s := p + q + r + t;
    assert s[0..2] == p;
    assert s[2..4] == q;
    assert s[4..6] == r;
    assert s[6..] == t;
  }

  /** `r,g,b` (alpha left out) or `r,g,b,a`, each component written by `str`. */
  function ListSpec(c: Color, withAlpha: bool): (spec: string)
  {
    Join(ListParts(c, withAlpha), ',')
  }

  /** The components a list writes out, alpha last when present. */
  function Components(c: Color, withAlpha: bool): (vs: seq<int>)
    ensures |vs| == (if withAlpha then 4 else 3)
  {
    if withAlpha then [c.r, c.g, c.b, c.a] else [c.r, c.g, c.b]
  }

  /** Each value written by `str`. */
  function Rendered(vs: seq<int>): (parts: seq<string>)
    ensures |parts| == |vs|
  {
    seq(|vs|, i requires 0 <= i < |vs| => IntToString(vs[i]))
  }

  function ListParts(c: Color, withAlpha: bool): (parts: seq<string>)
    ensures |parts| == (if withAlpha then 4 else 3)
  {
    Rendered(Components(c, withAlpha))
  }

  /** A rendered integer has no surrounding whitespace and no comma. */
  lemma RenderedIntIsBare(n: int)
    ensures Strip(IntToString(n)) == IntToString(n)
    ensures ',' !in IntToString(n)
  {
    var s := IntToString(n);
    assert !IsSpace(s[0]) && !IsSpace(s[|s| - 1]);
  }

  /** A rendered integer, stripped, parses back to itself. */
  lemma RenderedParses(n: int)
    ensures ParseInt(Strip(IntToString(n))) == Some(n)
  {
    RenderedIntIsBare(n);
    ParseIntRoundTrip(n);
  }

  /** Every colour, whatever the size or sign of its components, written as a
      comma list parses back to itself: the list branch applies no range
      check. Three components give an opaque colour. */
  lemma ListRoundTrip(c: Color, withAlpha: bool)
    requires withAlpha || c.a == 255
    ensures ParseColor(ListSpec(c, withAlpha)) == Success(Some(c))
  {
    var spec := ListSpec(c, withAlpha);
    ListSpecParses(c, withAlpha);
    ListSpecShape(c, withAlpha);
    LowerKeeps(spec, 0);
    NotAName(Lower(spec), 0);
    ListBranch(spec);
  }

  /** The list branch on its own reads a rendered list back. */
  lemma ListSpecParses(c: Color, withAlpha: bool)
    requires withAlpha || c.a == 255
    ensures ParseList(ListSpec(c, withAlpha)) == Some(c)
  {
    ListPartsSplit(c, withAlpha);
    ListPartsParse(c, withAlpha);
  }

  /** A string that is not a name, does not start with `#` and is a valid
      comma list gives the list's colour. */
  lemma ListBranch(spec: string)
    requires Lower(spec) !in NameTable && !StartsWithHash(spec)
    requires ',' in spec && ParseList(spec).Some?
    ensures ParseColor(spec) == Success(Some(ParseList(spec).value))
  {
  }

  /** Parsing succeeds with the given values when every piece parses to the
      corresponding one. */
  lemma ParseIntsAll(parts: seq<string>, vs: seq<int>)
    requires |vs| == |parts|
    requires forall i :: 0 <= i < |parts| ==> ParseInt(Strip(parts[i])) == Some(vs[i])
    ensures ParseInts(parts) == Some(vs)
  {
    var r := ParseInts(parts);
    assert forall i :: 0 <= i < |parts| ==> ParseInt(Strip(parts[i])).Some?;
    assert r.Some?;
    assert forall i :: 0 <= i < |parts| ==> r.value[i] == vs[i];
    assert r.value == vs;
  }

  /** The pieces of a rendered list split apart again. */
  lemma ListPartsSplit(c: Color, withAlpha: bool)
    ensures Split(ListSpec(c, withAlpha), ',') == ListParts(c, withAlpha)
  {
    var vs := Components(c, withAlpha);
    var parts := ListParts(c, withAlpha);
    forall i | 0 <= i < |parts|
      ensures ',' !in parts[i]
    {
      RenderedIntIsBare(vs[i]);
    }
    SplitJoin(parts, ',');
  }

  /** The pieces of a rendered list parse to the components. */
  lemma ListPartsParse(c: Color, withAlpha: bool)
    ensures ParseInts(ListParts(c, withAlpha)) == Some(Components(c, withAlpha))
  {
    RenderedListParses(Components(c, withAlpha));
  }

  /** Any list of integers written by `str` parses back to the list. */
  lemma RenderedListParses(vs: seq<int>)
    ensures ParseInts(Rendered(vs)) == Some(vs)
  {
    var parts := Rendered(vs);
    forall i | 0 <= i < |parts|
      ensures ParseInt(Strip(parts[i])) == Some(vs[i])
    {
      RenderedParses(vs[i]);
    }
    ParseIntsAll(parts, vs);
  }

  /** A rendered list starts with a digit or a minus sign and holds a comma. */
  lemma ListSpecShape(c: Color, withAlpha: bool)
    ensures var spec := ListSpec(c, withAlpha);
              && |spec| > 0 && (IsDigit(spec[0]) || spec[0] == '-') && ',' in spec
  {
    var parts := ListParts(c, withAlpha);
    var spec := ListSpec(c, withAlpha);
    var first := parts[0];
    assert first == IntToString(c.r);
    assert spec == first + [','] + Join(parts[1..], ',');
    assert spec[0] == first[0];
    assert spec[|first|] == ',';
  }

  /** Names are found whatever their case, `transparent` and `clear` both
      giving the fully transparent colour. */
  lemma NameExamples()
    ensures ParseColor("RED") == Success(Some(Color(255, 0, 0, 255)))
    ensures ParseColor("transparent") == Success(Some(Clear))
    ensures ParseColor("Clear") == Success(Some(Clear))
  {
    assert Lower("RED") == "red";
    assert Lower("Clear") == "clear";
    assert Lower("transparent") == "transparent";
  }

  lemma HexExample()
    ensures ParseColor("#00FF0080") == Success(Some(Color(0, 255, 0, 128)))
  {
    HexDigitsGiveBytes("#00FF0080");
  }

  lemma UnknownExample()
    ensures ParseColor("bogus") == Failure(InvalidColorFormat("bogus"))
  {
    assert Lower("bogus") == "bogus";
    NameTableKeys();
    assert "bogus" !in Names;
    assert ',' !in "bogus";
    UnknownWordIsError("bogus");
  }

  lemma ListExample()
    ensures ParseColor("10,20,30") == Success(Some(Color(10, 20, 30, 255)))
  {
    assert IntToString(10) == "10" && IntToString(20) == "20" && IntToString(30) == "30";
    assert ListSpec(Color(10, 20, 30, 255), false) == "10,20,30";
    ListRoundTrip(Color(10, 20, 30, 255), false);
  }

  /** Blanks around a part are stripped, and a sign or leading zeros are
      accepted. */
  lemma ParseListExample()
    ensures ParseList(" 10, +2 ,030") == Some(Color(10, 2, 30, 255))
  {
    SplitExample();
    StripPartsExample();
    ParseIntExamples();
    ThreeParts(" 10, +2 ,030", " 10", " +2 ", "030", 10, 2, 30);
  }

  /** A specification that splits into three integer pieces gives the
      opaque colour of those integers. */
  lemma ThreeParts(spec: string, p: string, q: string, t: string, x: int, y: int, z: int)
    requires Split(spec, ',') == [p, q, t]
    requires ParseInt(Strip(p)) == Some(x) && ParseInt(Strip(q)) == Some(y) && ParseInt(Strip(t)) == Some(z)
    ensures ParseList(spec) == Some(Color(x, y, z, 255))
  {
    var parts := Split(spec, ',');
    var vs := [x, y, z];
    assert forall i :: 0 <= i < 3 ==> ParseInt(Strip(parts[i])) == Some(vs[i]);
    ParseIntsAll(parts, vs);
  }

  /** `int(p, 16)` accepts a sign, so a hex specification can yield a
      negative component. */
  lemma SignedHexExample()
    ensures ParseColor("#-10000") == Success(Some(Color(-1, 0, 0, 255)))
  {
    var spec := "#-10000";
    NotAName(Lower(spec), 0);
    var hex := spec[1..];
    assert hex[0..2] == "-1" && hex[2..4] == "00" && hex[4..6] == "00";
  }
}
