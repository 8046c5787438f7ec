/** `generate_output_filename` of png_expand.py: the output path keeps the
    input's directory and extension and inserts `_padded_{padding}px_{desc}`
    after the stem, where `desc` describes the background colour. */
module OutputNames {
  import opened Wrappers
  import opened Numerals
  import opened Colors

  /** A further component of a descriptor: `-` and the number. */
  function Field(v: int): (f: string)
    ensures |f| > 1 && f[0] == '-'
  {
    "-" + IntToString(v)
  }

  /** The alpha suffix of a descriptor: present exactly when alpha is not 255. */
  function AlphaSuffix(a: int): (s: string)
    ensures s == [] <==> a == 255
    ensures s != [] ==> s[0] == '-'
  {
    if a != 255 then Field(a) else ""
  }

  /** The colour descriptor: `clear`, `white`, or `r-g-b` with `-a` added
      when alpha is not 255. */
  function Descriptor(c: Color): (d: string)
    ensures d == "clear" <==> c == Clear
    ensures d == "white" <==> c == White
    ensures |d| > 0
  {
    if c == Clear then "clear"
    else if c == White then "white"
    else
      var d := IntToString(c.r) + (Field(c.g) + (Field(c.b) + AlphaSuffix(c.a)));
      assert d[0] == IntToString(c.r)[0];
      d
  }

  /** Reads `-` and then an integer. */
  function ReadDashInt(s: string): (r: Option<(int, string)>)
    ensures r.Some? ==> |s| > 0 && s[0] == '-'
  {
    if |s| > 0 && s[0] == '-' then ReadInt(s[1..]) else None
  }

  /** Reads `r-g-b` from the front of `s`, returning the rest. */
  function DecodeRgb(s: string): (r: Option<(int, int, int, string)>)
  {
    var (red, s1) :- ReadInt(s);
    var (green, s2) :- ReadDashInt(s1);
    var (blue, s3) :- ReadDashInt(s2);
    Some((red, green, blue, s3))
  }

  /** Reads the optional `-a`: nothing left means alpha 255. */
  function DecodeAlpha(s: string): (r: Option<int>)
    ensures s == [] ==> r == Some(255)
    ensures s != [] && r.Some? ==> s[0] == '-'
  {
    if s == [] then Some(255)
    else
      var (alpha, rest) :- ReadDashInt(s);
      if rest == [] then Some(alpha) else None
  }

  /** Reads a descriptor back: the inverse of `Descriptor`. */
  function DecodeDescriptor(d: string): (r: Option<Color>)
    ensures d == "clear" ==> r == Some(Clear)
    ensures d == "white" ==> r == Some(White)
  {
    if d == "clear" then Some(Clear)
    else if d == "white" then Some(White)
    else
      var (red, green, blue, rest) :- DecodeRgb(d);
      var alpha :- DecodeAlpha(rest);
      Some(Color(red, green, blue, alpha))
  }

  /** Reading `-n` followed by text not starting with a digit. */
  lemma ReadDashIntRoundTrip(n: int, rest: string)
    requires rest == [] || !IsDigit(rest[0])
    ensures ReadDashInt(Field(n) + rest) == Some((n, rest))
  {
    var s := Field(n) + rest;
    assert s[1..] == IntToString(n) + rest;
    ReadIntRoundTrip(n, rest);
  }

  lemma RgbRoundTrip(r: int, g: int, b: int, tail: string)
    requires tail == [] || tail[0] == '-'
    ensures DecodeRgb(IntToString(r) + (Field(g) + (Field(b) + tail))) == Some((r, g, b, tail))
  {
    var s2 := Field(b) + tail;
    var s1 := Field(g) + s2;
    assert s1[0] == '-' && s2[0] == '-';
    ReadIntRoundTrip(r, s1);
    ReadDashIntRoundTrip(g, s2);
    ReadDashIntRoundTrip(b, tail);
  }

  lemma AlphaRoundTrip(a: int)
    ensures DecodeAlpha(AlphaSuffix(a)) == Some(a)
  {
    if a != 255 {
      ReadDashIntRoundTrip(a, "");
      assert Field(a) + "" == AlphaSuffix(a);
    }
  }

  /** Every colour's descriptor reads back to the colour, so the descriptor
      tells colours apart. */
  lemma DescriptorRoundTrip(c: Color)
    ensures DecodeDescriptor(Descriptor(c)) == Some(c)
    ensures c != Clear && c != White ==>
              DecodeRgb(Descriptor(c)) == Some((c.r, c.g, c.b, AlphaSuffix(c.a)))
  {
    if c != Clear && c != White {
      var tail := AlphaSuffix(c.a);
      RgbRoundTrip(c.r, c.g, c.b, tail);
      AlphaRoundTrip(c.a);
    }
  }

  /** Opaque colours other than white are `r-g-b`; translucent ones other
      than the fully transparent colour gain `-a`. */
  lemma DescriptorExamples()
    ensures Descriptor(Color(0, 0, 0, 255)) == "0-0-0"
    ensures Descriptor(Color(255, 0, 0, 128)) == "255-0-0-128"
  {
    RenderExamples();
  }

  /** Distinct colours have distinct descriptors. */
  lemma DescriptorInjective(c1: Color, c2: Color)
    requires Descriptor(c1) == Descriptor(c2)
    ensures c1 == c2
  {
    DescriptorRoundTrip(c1);
    DescriptorRoundTrip(c2);
  }

  /** `_padded_{padding}px_{desc}`. */
  function Tag(padding: int, c: Color): (t: string)
    ensures |t| > 8 && t[..8] == "_padded_"
    ensures PlainChars(t)
    ensures '/' !in t && '.' !in t
  {
    DescriptorIsPlain(c);
    TagText(padding, Descriptor(c));
    "_padded_" + (IntToString(padding) + ("px_" + Descriptor(c)))
  }

  /** The text of a tag around any descriptor without `/` or `.`. */
  lemma TagText(padding: int, d: string)
    requires PlainChars(d)
    ensures var t := "_padded_" + (IntToString(padding) + ("px_" + d));
            && |t| > 8 && t[..8] == "_padded_"
            && PlainChars(t) && '/' !in t && '.' !in t
  {
    RenderedIsPlain(padding);
    PlainAppend("px_", d);
    PlainAppend(IntToString(padding), "px_" + d);
    PlainAppend("_padded_", IntToString(padding) + ("px_" + d));
    var t := "_padded_" + (IntToString(padding) + ("px_" + d));
    assert forall i :: 0 <= i < |t| ==> t[i] != '/' && t[i] != '.';
  }

  /** Reads a tag back into its padding and colour. */
  function DecodeTag(t: string): Option<(int, Color)>
  {
    if |t| < 8 || t[..8] != "_padded_" then None
    else
      var (padding, rest) :- ReadInt(t[8..]);
      if |rest| < 3 || rest[..3] != "px_" then None
      else
        var c :- DecodeDescriptor(rest[3..]);
        Some((padding, c))
  }

  /** The tag determines the padding and the colour. */
  lemma TagRoundTrip(padding: int, c: Color)
    ensures DecodeTag(Tag(padding, c)) == Some((padding, c))
  {
    var t := Tag(padding, c);
    var rest := "px_" + Descriptor(c);
    assert t[..8] == "_padded_";
    assert t[8..] == IntToString(padding) + rest;
    ReadIntRoundTrip(padding, rest);
    assert rest[..3] == "px_";
    assert rest[3..] == Descriptor(c);
    DescriptorRoundTrip(c);
  }

  /** Position of the last occurrence of `c` in `s`, or -1. */
  function LastIndexOf(s: string, c: char): (i: int)
    ensures -1 <= i < |s|
    ensures i >= 0 ==> s[i] == c
    ensures forall j :: i < j < |s| ==> s[j] != c
  {
    if |s| == 0 then -1
    else if s[|s| - 1] == c then |s| - 1
    else LastIndexOf(s[..|s| - 1], c)
  }

  /** The directory part of a path, with its trailing `/`; empty for a bare
      file name. */
  function DirPart(path: string): (dir: string)
    ensures dir == [] || dir[|dir| - 1] == '/'
  {
    path[..LastIndexOf(path, '/') + 1]
  }

  /** The file name: everything after the last `/`. */
  function BaseName(path: string): (name: string)
    ensures '/' !in name
  {
    path[LastIndexOf(path, '/') + 1..]
  }

  /** The extension as `pathlib` reports it: from the last `.` on, unless
      that dot is the first or the last character of the name. */
  function Suffix(name: string): (suf: string)
    ensures suf == [] || (|suf| > 1 && suf[0] == '.')
  {
    var i := LastIndexOf(name, '.');
    if 0 < i < |name| - 1 then name[i..] else ""
  }

  /** The name without its extension. */
  function Stem(name: string): (stem: string)
    ensures |stem| > 0 || name == []
  {
    var i := LastIndexOf(name, '.');
    if 0 < i < |name| - 1 then name[..i] else name
  }

  /** `generate_output_filename`. */
  function OutputFilename(path: string, padding: int, c: Color): (out: string)
    ensures |out| == |path| + |Tag(padding, c)|
  {
    var name := BaseName(path);
    PathParts(path);
    DirPart(path) + (Stem(name) + Tag(padding, c) + Suffix(name))
  }

  /** The parts a path is split into put it back together. */
  lemma PathParts(path: string)
    ensures DirPart(path) + BaseName(path) == path
    ensures Stem(BaseName(path)) + Suffix(BaseName(path)) == BaseName(path)
    ensures '/' !in BaseName(path)
  {
  }

  /** Appending text without `c` keeps the last occurrence of `c`. */
  lemma {:induction false} LastIndexOfAppend(a: string, b: string, c: char)
    requires c !in b
    ensures LastIndexOf(a + b, c) == LastIndexOf(a, c)
  {
    if |b| > 0 {
      assert (a + b)[..|a + b| - 1] == a + b[..|b| - 1];
      LastIndexOfAppend(a, b[..|b| - 1], c);
    } else {
      assert a + b == a;
    }
  }

  /** Prefixing text shifts an occurrence found in the suffix. */
  lemma {:induction false} LastIndexOfPrefix(a: string, b: string, c: char)
    requires c in b
    ensures LastIndexOf(a + b, c) == |a| + LastIndexOf(b, c)
  {
    if b[|b| - 1] != c {
      assert (a + b)[..|a + b| - 1] == a + b[..|b| - 1];
      assert c in b[..|b| - 1] by {
        var k :| 0 <= k < |b| && b[k] == c;
        assert b[..|b| - 1][k] == c;
      }
      LastIndexOfPrefix(a, b[..|b| - 1], c);
    }
  }

  /** Characters that can appear in a tag: no `/` and no `.`. */
  predicate PlainChars(s: string) {
    forall i :: 0 <= i < |s| ==> s[i] != '/' && s[i] != '.'
  }

  lemma PlainAppend(a: string, b: string)
    requires PlainChars(a) && PlainChars(b)
    ensures PlainChars(a + b)
  {
    forall i | 0 <= i < |a + b|
      ensures (a + b)[i] != '/' && (a + b)[i] != '.'
    {
      if i >= |a| {
        assert (a + b)[i] == b[i - |a|];
      }
    }
  }

  /** A rendered integer holds only digits and `-`. */
  lemma RenderedIsPlain(n: int)
    ensures PlainChars(IntToString(n)) && PlainChars(Field(n))
  {
    PlainAppend("-", IntToString(n));
  }

  lemma DescriptorIsPlain(c: Color)
    ensures PlainChars(Descriptor(c))
  {
    if c != Clear && c != White {
      RenderedIsPlain(c.r);
      RenderedIsPlain(c.g);
      RenderedIsPlain(c.b);
      RenderedIsPlain(c.a);
      var tail := AlphaSuffix(c.a);
      PlainAppend(Field(c.b), tail);
      PlainAppend(Field(c.g), Field(c.b) + tail);
      PlainAppend(IntToString(c.r), Field(c.g) + (Field(c.b) + tail));
    }
  }

  /** Text without `/` appended to a path extends its file name and leaves
      its directory alone. */
  lemma AppendToName(path: string, more: string)
    requires '/' !in more
    ensures DirPart(path + more) == DirPart(path)
    ensures BaseName(path + more) == BaseName(path) + more
  {
    LastIndexOfAppend(path, more, '/');
    var k := LastIndexOf(path, '/') + 1;
    assert (path + more)[..k] == path[..k];
    assert (path + more)[k..] == path[k..] + more;
  }

  /** The directory part of a path is its own directory part. */
  lemma DirPartIsDirectory(path: string)
    ensures DirPart(DirPart(path)) == DirPart(path)
    ensures BaseName(DirPart(path)) == []
  {
    var dir := DirPart(path);
    if |dir| > 0 {
      assert dir[|dir| - 1] == '/';
      assert LastIndexOf(dir, '/') == |dir| - 1;
    }
  }

  lemma StemSuffixPlain(name: string)
    requires '/' !in name
    ensures '/' !in Stem(name) && '/' !in Suffix(name)
  {
    var i := LastIndexOf(name, '.');
    if 0 < i < |name| - 1 {
      assert forall j :: 0 <= j < i ==> name[..i][j] == name[j];
      assert forall j :: 0 <= j < |name| - i ==> name[i..][j] == name[i + j];
    }
  }

  lemma NoSlashAppend(a: string, b: string, c: string)
    requires '/' !in a && '/' !in b && '/' !in c
    ensures '/' !in a + b + c
  {
  }

  /** The generated path lies in the input's directory, and its file name is
      the input's stem, the tag and the input's extension. */
  lemma DirectoryKept(path: string, padding: int, c: Color)
    ensures DirPart(OutputFilename(path, padding, c)) == DirPart(path)
    ensures BaseName(OutputFilename(path, padding, c)) ==
              Stem(BaseName(path)) + Tag(padding, c) + Suffix(BaseName(path))
  {
    var name := BaseName(path);
    var dir := DirPart(path);
    var rest := Stem(name) + Tag(padding, c) + Suffix(name);
    PathParts(path);
    StemSuffixPlain(name);
    NoSlashAppend(Stem(name), Tag(padding, c), Suffix(name));
    DirPartIsDirectory(path);
    AppendToName(dir, rest);
    assert [] + rest == rest;
  }

  /** The generated name keeps the input's extension, and its stem is the
      input's stem followed by the tag, unless the input's name is two or
      more characters ending in `.` (then the tag would follow that dot and
      become the extension). Names that start with their only `.`, such as
      `.bashrc`, have no extension and keep none. */
  lemma ExtensionKept(path: string, padding: int, c: Color)
    requires |BaseName(path)| < 2 || BaseName(path)[|BaseName(path)| - 1] != '.'
    ensures Suffix(BaseName(OutputFilename(path, padding, c))) == Suffix(BaseName(path))
    ensures Stem(BaseName(OutputFilename(path, padding, c))) == Stem(BaseName(path)) + Tag(padding, c)
  {
    var name := BaseName(path);
    var t := Tag(padding, c);
    DirectoryKept(path, padding, c);
    if Suffix(name) != [] {
      SuffixShape(name);
      KeepsSuffix(Stem(name) + t, Suffix(name));
    } else {
      NoDotNoSuffix(name, t);
    }
  }

  /** A non-empty extension is a `.` followed by at least one character
      that is not a `.`, and the stem before it is not empty. */
  lemma SuffixShape(name: string)
    requires Suffix(name) != []
    ensures |Suffix(name)| > 1 && Suffix(name)[0] == '.' && '.' !in Suffix(name)[1..]
    ensures |Stem(name)| > 0
  {
    var i := LastIndexOf(name, '.');
    var suf := name[i..];
    assert suf[0] == '.';
    forall j | 1 <= j < |suf|
      ensures suf[j] != '.'
    {
      assert suf[j] == name[i + j];
    }
  }

  /** Appending an extension to a non-empty stem gives a name whose stem and
      extension are exactly those. */
  lemma KeepsSuffix(stem: string, suf: string)
    requires |stem| > 0 && |suf| > 1 && suf[0] == '.' && '.' !in suf[1..]
    ensures Suffix(stem + suf) == suf && Stem(stem + suf) == stem
  {
    assert '.' in suf;
    LastIndexOfPrefix(stem, suf, '.');
    var k := LastIndexOf(suf, '.');
    assert k == 0;
    assert (stem + suf)[|stem|..] == suf;
    assert (stem + suf)[..|stem|] == stem;
  }

  /** A name whose last `.`, if any, is its first character, with dot-free
      text appended, still has no extension. */
  lemma NoDotNoSuffix(name: string, t: string)
    requires LastIndexOf(name, '.') <= 0 && '.' !in t
    ensures Suffix(name) == [] && Stem(name) == name
    ensures Suffix(Stem(name) + t + Suffix(name)) == [] && Stem(Stem(name) + t + Suffix(name)) == name + t
  {
    LastIndexOfAppend(name, t, '.');
    assert name + t + [] == name + t;
  }

  /** For a given input path, the generated name determines the padding and
      the colour: different settings never collide. */
  lemma OutputNameInjective(path: string, p1: int, c1: Color, p2: int, c2: Color)
    requires OutputFilename(path, p1, c1) == OutputFilename(path, p2, c2)
    ensures p1 == p2 && c1 == c2
  {
    var name := BaseName(path);
    CancelAround(DirPart(path), Stem(name), Tag(p1, c1), Tag(p2, c2), Suffix(name));
    TagRoundTrip(p1, c1);
    TagRoundTrip(p2, c2);
  }

  /** Equal strings with the same text around the middle have equal middles. */
  lemma CancelAround(d: string, st: string, x: string, y: string, su: string)
    requires d + (st + x + su) == d + (st + y + su)
    ensures x == y
  {
    var s := d + (st + x + su);
    var k := |d| + |st|;
    assert |x| == |y|;
    forall i | 0 <= i < |x|
      ensures x[i] == y[i]
    {
      assert s[k + i] == x[i];
      assert (d + (st + y + su))[k + i] == y[i];
    }
  }

  /** An example: `photo.png`, padding 50, transparent. */
  lemma PhotoExample()
    ensures OutputFilename("photo.png", 50, Clear) == "photo_padded_50px_clear.png"
  {
    PhotoSplit();
    PhotoTag();
    assert OutputFilename("photo.png", 50, Clear) == "" + ("photo" + "_padded_50px_clear" + ".png");
  }

  lemma PhotoTag()
    ensures Tag(50, Clear) == "_padded_50px_clear"
  {
    RenderExamples();
    assert "_padded_" + ("50" + ("px_" + "clear")) == "_padded_50px_clear";
  }

  lemma PhotoSplit()
    ensures DirPart("photo.png") == "" && BaseName("photo.png") == "photo.png"
    ensures Stem("photo.png") == "photo" && Suffix("photo.png") == ".png"
  {
    var path := "photo.png";
    assert '/' !in path;
    assert path[..0] == "" && path[0..] == path;
    assert '.' !in ".png"[1..];
    KeepsSuffix("photo", ".png");
    assert "photo" + ".png" == path;
  }
}
