/** The Python string operations the colour parser relies on: `str.lower`,
    `str.strip` and `str.split` with a one-character separator. */
module Text {

  /** Python's `str.isspace` restricted to ASCII: space, \t \n \v \f \r and
      the four separator controls 0x1C..0x1F. */
  predicate IsSpace(c: char) {
    var k := c as int;
    k == 32 || 9 <= k <= 13 || 28 <= k <= 31
  }

  predicate IsUpper(c: char) {
    'A' <= c <= 'Z'
  }

  function LowerChar(c: char): (l: char)
    ensures !IsUpper(l)
    ensures IsUpper(c) ==> l as int == c as int + 32
    ensures !IsUpper(c) ==> l == c
  {
    if IsUpper(c) then (c as int + 32) as char else c
  }

  /** ASCII case folding, character by character. */
  function Lower(s: string): (r: string)
    ensures |r| == |s|
    ensures forall i :: 0 <= i < |s| ==> r[i] == LowerChar(s[i])
  {
    seq(|s|, i requires 0 <= i < |s| => LowerChar(s[i]))
  }

  /** Every character of `s` from position `lo` up to `hi` is whitespace. */
  predicate SpaceBetween(s: string, lo: nat, hi: nat)
    requires lo <= hi <= |s|
  {
    forall k :: lo <= k < hi ==> IsSpace(s[k])
  }

  /** The number of whitespace characters at the start of `s`. */
  function LeadingSpaces(s: string): (n: nat)
    ensures n <= |s| && SpaceBetween(s, 0, n)
    ensures n < |s| ==> !IsSpace(s[n])
  {
    if |s| > 0 && IsSpace(s[0]) then 1 + LeadingSpaces(s[1..]) else 0
  }

  /** The number of whitespace characters at the end of `s`. */
  function TrailingSpaces(s: string): (n: nat)
    ensures n <= |s| && SpaceBetween(s, |s| - n, |s|)
    ensures n < |s| ==> !IsSpace(s[|s| - 1 - n])
  {
    if |s| > 0 && IsSpace(s[|s| - 1]) then 1 + TrailingSpaces(s[..|s| - 1]) else 0
  }

  /** Python's `str.strip()`: the result is the piece of `s` left after
      dropping whitespace, and only whitespace, at both ends. */
  function Strip(s: string): (r: string)
    ensures r == [] || (!IsSpace(r[0]) && !IsSpace(r[|r| - 1]))
    ensures LeadingSpaces(s) + |r| <= |s| && r == s[LeadingSpaces(s)..LeadingSpaces(s) + |r|]
    ensures SpaceBetween(s, LeadingSpaces(s) + |r|, |s|)
    ensures |s| > 0 && !IsSpace(s[0]) && !IsSpace(s[|s| - 1]) ==> r == s
    ensures |s| > 0 && !IsSpace(s[0]) ==> |r| > 0 && r[0] == s[0]
  {
    var i := LeadingSpaces(s);
    var t := s[i..];
    var k := TrailingSpaces(t);
    var r := t[..|t| - k];
    PrefixOfSuffix(s, i, r);
    assert r == [] || r[|r| - 1] == s[i + |r| - 1];
    assert SpaceBetween(s, i + |r|, |s|) by {
      forall p | i + |r| <= p < |s| ensures IsSpace(s[p]) {
        assert s[p] == t[p - i];
      }
    }
    r
  }

  /** A prefix of the suffix of `s` from `i` is a slice of `s`, and what
      follows it in the suffix is what follows it in `s`. */
  lemma PrefixOfSuffix(s: string, i: nat, r: string)
    requires i <= |s| && |r| <= |s| - i && r == s[i..][..|r|]
    ensures r == s[i..i + |r|] && s[i + |r|..] == s[i..][|r|..]
  {
  }

  /** Stripping twice strips no more than stripping once. */
  lemma StripIdempotent(s: string)
    ensures Strip(Strip(s)) == Strip(s)
  {
    var r := Strip(s);
    if r == [] {
      assert Strip(r) == [];
    }
  }

  /** Surrounding blanks go, inner ones stay. */
  lemma StripExample()
    ensures Strip(" 5 ") == "5"
  {
    assert LeadingSpaces(" 5 ") == 1;
    assert " 5 "[1..] == "5 ";
    assert TrailingSpaces("5 ") == 1;
  }

  lemma StripInnerExample()
    ensures Strip("\t1 0\n") == "1 0"
  {
    var s := "\t1 0\n";
    assert LeadingSpaces(s) == 1;
    assert s[1..] == "1 0\n";
    assert TrailingSpaces("1 0\n") == 1;
    assert "1 0\n"[..3] == "1 0";
  }

  /** Strip is the only way to cut `s` into blanks, a piece that neither
      starts nor ends with a blank, and blanks. */
  lemma {:induction false} StripUnique(s: string, i: nat, j: nat)
    requires i <= j <= |s| && SpaceBetween(s, 0, i) && SpaceBetween(s, j, |s|)
    requires i == j || (!IsSpace(s[i]) && !IsSpace(s[j - 1]))
    ensures Strip(s) == s[i..j]
  {
    var n := LeadingSpaces(s);
    var r := Strip(s);
    var m := n + |r|;
    if i < j {
      assert n == i;
      assert r == [] || r[|r| - 1] == s[m - 1];
      assert m == j;
    }
  }

  /** Splitting keeps the blanks around each part. */
  lemma SplitExample()
    ensures Split(" 10, +2 ,030", ',') == [" 10", " +2 ", "030"]
  {
    var parts := [" 10", " +2 ", "030"];
    assert parts[1..] == [" +2 ", "030"] && parts[1..][1..] == ["030"];
    assert Join(parts[1..], ',') == " +2 ,030";
    assert Join(parts, ',') == " 10, +2 ,030";
    SplitJoin(parts, ',');
  }

  /** Stripping removes the blanks around a part, and only those. */
  lemma StripPartsExample()
    ensures Strip(" 10") == "10" && Strip(" +2 ") == "+2" && Strip("030") == "030"
  {
    StripUnique(" 10", 1, 3);
    StripUnique(" +2 ", 1, 3);
    StripUnique("030", 0, 3);
  }

  /** Position of the first occurrence of `c` in `s`. */
  function IndexOf(s: string, c: char): (i: nat)
    requires c in s
    ensures i < |s| && s[i] == c && c !in s[..i]
  {
    if s[0] == c then 0 else 1 + IndexOf(s[1..], c)
  }

  /** `sep.join(parts)` for a non-empty list of parts. */
  function Join(parts: seq<string>, sep: char): (s: string)
    requires |parts| > 0
  {
    if |parts| == 1 then parts[0] else parts[0] + [sep] + Join(parts[1..], sep)
  }

  /** Python's `s.split(sep)`: never empty, keeps empty pieces, and joining
      the pieces back with `sep` gives `s`. */
  function Split(s: string, sep: char): (parts: seq<string>)
    ensures |parts| > 0
    ensures forall i :: 0 <= i < |parts| ==> sep !in parts[i]
    ensures Join(parts, sep) == s
    decreases |s|
  {
    if sep !in s then [s]
    else
      var i := IndexOf(s, sep);
      var rest := Split(s[i + 1..], sep);
      assert ([s[..i]] + rest)[1..] == rest;
      assert s == s[..i] + [sep] + s[i + 1..];
      [s[..i]] + rest
  }

  /** Splitting inverts joining when no part holds the separator. */
  lemma {:induction false} SplitJoin(parts: seq<string>, sep: char)
    requires |parts| > 0
    requires forall i :: 0 <= i < |parts| ==> sep !in parts[i]
    ensures Split(Join(parts, sep), sep) == parts
  {
    if |parts| > 1 {
      var s := Join(parts, sep);
      var tail := Join(parts[1..], sep);
      assert s == parts[0] + [sep] + tail;
      assert sep in s by { assert s[|parts[0]|] == sep; }
      var i := IndexOf(s, sep);
      assert s[..|parts[0]|] == parts[0];
      assert i == |parts[0]|;
      assert s[..i] == parts[0];
      assert s[i + 1..] == tail;
      SplitJoin(parts[1..], sep);
      assert [parts[0]] + parts[1..] == parts;
    }
  }

  /** The first piece of a split is a prefix of the input. */
  lemma {:induction false} JoinStartsWithFirst(parts: seq<string>, sep: char)
    requires |parts| > 0
    ensures |parts[0]| <= |Join(parts, sep)|
    ensures Join(parts, sep)[..|parts[0]|] == parts[0]
  {
    if |parts| > 1 {
      var s := Join(parts, sep);
      assert s == parts[0] + ([sep] + Join(parts[1..], sep));
    }
  }
}
