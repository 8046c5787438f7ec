# png_expand in Dafny

A model of the pure logic of `png_expand.py`, a command-line tool that pads a
PNG image with a uniform border of a chosen colour. The model covers the
three parts of the tool that do not depend on the imaging library:

- **`parse_color`** (`Colors.ParseColor`). It turns a colour specification
  into nothing (empty input), an RGBA colour, or an error. The alternatives
  are tried in the source's order: empty input, then a case-insensitive
  lookup in the 13-entry name table, then `#` followed by 6 or 8
  characters, then a comma list of 3 or 4 integers, then the catch-all
  error.
- **`generate_output_filename`** (`OutputNames.OutputFilename`). It builds
  `dir/stem_padded_{padding}px_{desc}suffix`. The colour descriptor is
  `clear`, `white`, `r-g-b`, or `r-g-b-a` when alpha is not 255.
- **The canvas arithmetic of `expand_png`** (`Canvas.Expand`). The new
  canvas is `w + 2p` by `h + 2p`, filled with the background. The original
  is placed at offset `(p, p)` by overwriting the pixels it covers.

Modules:

- `Wrappers`: `Option` and `Result`. These replace Python's `None` returns
  and exceptions.
- `Text`: ASCII `lower`, `strip`, and `split` on one character.
- `Numerals`: `str(int)`, `int(s)` for decimal literals, and `int(p, 16)`
  for two-character pairs.
- `Colors`: the parser.
- `OutputNames`: the descriptor and the file name.
- `Canvas`: layout, expansion and output mode.

Colours are 4-tuples of `int`. The comma branch does no range check, so
`ListRoundTrip` proves that a colour with negative or large components
survives being written as a list and parsed back.

Points where the code does less than its comments suggest:

- The comment on line 150 says the result goes back to RGB when the input
  was RGB and the background is opaque. But lines 134-135 have already
  converted every input to RGBA, so the test on line 151 never holds.
  `Canvas.OutputMode` states that the output is always RGBA.
- The comma branch (lines 50-56) applies no range check. Components
  outside 0..255 pass through unchanged.
- Each hex pair is read with Python's `int(pair, 16)`. That call also
  accepts a sign or one whitespace character beside a single digit, so
  `#-10000` gives `(-1, 0, 0, 255)` (`Colors.SignedHexExample`). Hex
  components therefore lie in -15..255. They lie in 0..255 when every
  character after the `#` is a hex digit (`Colors.HexDigitsGiveBytes`).

## Model

| member | source | states |
|---|---|---|
| Text.Lower | png_expand.py:30 | lower-casing keeps the length and folds each ASCII capital to its small letter, leaving every other character alone |
| Text.Strip | png_expand.py:52 | the result is the slice of the input that begins after its leading whitespace; what is dropped after it is all whitespace; the result neither starts nor ends with whitespace; input without surrounding whitespace is unchanged |
| Text.StripUnique | png_expand.py:52 | any cut of the input into whitespace, a piece that neither starts nor ends with whitespace, and whitespace has the stripped result as its piece |
| Text.StripIdempotent | png_expand.py:52 | stripping a stripped piece changes nothing |
| Text.StripExample | png_expand.py:52 | ` 5 ` strips to `5` |
| Text.StripInnerExample | png_expand.py:52 | a tab and a newline around `1 0` go, the inner blank stays |
| Text.StripPartsExample | png_expand.py:52 | ` 10`, ` +2 ` and `030` strip to `10`, `+2` and `030` |
| Text.Split | png_expand.py:52 | splitting on a comma gives at least one piece, no piece holds a comma, and joining the pieces with commas gives the input back |
| Text.SplitJoin | png_expand.py:52 | splitting inverts joining for comma-free pieces |
| Text.SplitExample | png_expand.py:52 | ` 10, +2 ,030` splits into ` 10`, ` +2 ` and `030`, blanks kept |
| Numerals.IntToString | png_expand.py:72-74 | `str(n)` starts with `-` exactly for negative n and holds only digits and that sign |
| Numerals.NatToDigits | png_expand.py:72-74 | a natural number's digits are non-empty with no leading zero |
| Numerals.NatDigitsRoundTrip | png_expand.py:72-74 | reading back the digits of n gives n |
| Numerals.DigitsCanonical | png_expand.py:72-74 | a digit string without leading zeros is the rendering of its own value |
| Numerals.ParseInt | png_expand.py:52 | `int` of a stripped piece succeeds exactly on an optional sign followed by one or more ASCII digits; the value is that of the digits, negated after a minus, leading zeros allowed |
| Numerals.ParseIntExamples | png_expand.py:52 | `007` gives 7, `+5` gives 5, `-12` gives -12; `1x`, a lone `+` and the empty string are rejected |
| Numerals.ParseIntRoundTrip | png_expand.py:52 | every integer's `str` parses back to it |
| Numerals.DigitRun | png_expand.py:72-74 | the digit run at the front of a string is all digits and is maximal |
| Numerals.ReadIntRoundTrip | png_expand.py:72-74 | an integer can be read back from its rendering when the following text does not start with a digit |
| Numerals.RenderExamples | png_expand.py:72-76 | `str` gives `0`, `50`, `128` and `255` for those numbers |
| Numerals.ParseHexPair | png_expand.py:38-46 | `int(pair, 16)` accepts two hex digits with a value in 0..255; any accepted pair lies in -15..255, is negative only after a minus, and holds only hex digits, whitespace or signs |
| Numerals.HexByteRoundTrip | png_expand.py:38-46 | every byte written as two hex digits, in either case, parses back to itself |
| Colors.NameTableKeys | png_expand.py:14-28 | the table's keys are exactly the 13 names |
| Colors.NamesAreWords | png_expand.py:14-28 | every name is a non-empty lower-case word |
| Colors.NameColorsAreBytes | png_expand.py:14-28 | every named colour has byte components |
| Colors.NotAName | png_expand.py:30-32 | a string holding a character that is not a lower-case letter is not a name |
| Colors.HexComponent | png_expand.py:38-46 | a pair of hex digits gives 16 times the first digit plus the second; a failure reports the offending pair |
| Colors.ParseHex | png_expand.py:35-47 | six characters give alpha 255; all-hex-digit input gives byte components; a success used only characters `int(.., 16)` accepts; errors are hex-literal errors |
| Colors.ParseInts | png_expand.py:52 | the list has one value per piece, each the `int` of the stripped piece, and it fails exactly when some piece is not an integer |
| Colors.ParseList | png_expand.py:50-58 | the list branch succeeds exactly when the input splits into 3 or 4 pieces that all parse as integers; the components are those integers in order, alpha 255 for 3 pieces |
| Colors.ThreeParts | png_expand.py:52-54 | three pieces that parse as integers give the opaque colour of those integers |
| Colors.ParseListExample | png_expand.py:50-54 | ` 10, +2 ,030` gives (10,2,30,255): blanks around pieces, a plus sign and leading zeros are accepted |
| Colors.ParseColor | png_expand.py:8-60 | empty input and only empty input gives None; a name never fails; a colour comes from a name, a 6- or 8-character `#` form, or a list of 3 or 4; without a comma the components lie in -15..255; hex-literal errors only arise for `#` forms of those lengths |
| Colors.FallsThroughToError | png_expand.py:60 | input that is not empty, not a name, not hex-shaped and not a list raises the format error |
| Colors.NameLookupIgnoresCase | png_expand.py:30-32 | spellings that differ only in case give the same named colour, before any other branch |
| Colors.HashSpecNotAList | png_expand.py:35-58 | a `#` specification never parses as a comma list |
| Colors.HashSpecInHexRange | png_expand.py:35-47 | a successful `#` specification has 6 or 8 characters after the `#`, components in -15..255, and alpha 255 in the 6-character form |
| Colors.HashBranchValue | png_expand.py:35-60 | a `#` specification gives the hex branch's colour or error when 6 or 8 characters follow the `#`, and the format error for any other length |
| Colors.HexDigitsGiveBytes | png_expand.py:35-47 | `#` plus 6 or 8 hex digits gives byte components, each the value of its pair, with alpha 255 for 6 digits |
| Colors.HashOfWrongLengthIsError | png_expand.py:35-60 | `#` with a length other than 6 or 8 is the format error |
| Colors.UnknownWordIsError | png_expand.py:30-60 | an unknown name with no leading `#` and no comma is the format error |
| Colors.CommaSpecNotAName | png_expand.py:30-32 | no comma-holding string is a name |
| Colors.WrongCountIsError | png_expand.py:50-60 | a comma list whose count is not 3 or 4 is an error, and the format error unless it is hex-shaped |
| Colors.NonIntegerPartIsError | png_expand.py:50-60 | a comma list with a piece that is not an integer is an error, and the format error unless it is hex-shaped |
| Colors.ParseIntsFails | png_expand.py:52 | one piece that `int` rejects makes the whole list comprehension fail |
| Colors.PartSpoilsList | png_expand.py:50-58 | one piece that is not an integer makes the list branch give nothing |
| Colors.NoListIsError | png_expand.py:50-60 | a comma-holding string that is not a valid list is an error |
| Colors.CommaNotInHex | png_expand.py:35-47 | a hex-shaped specification holding a comma fails in the hex branch |
| Colors.HexRoundTrip | png_expand.py:35-47 | every byte colour written as `#rrggbbaa`, or as `#rrggbb` when opaque, in either case, parses back to itself |
| Colors.HexDigitsParse | png_expand.py:38-47 | the hex branch reads back the digits of every byte colour, six digits meaning alpha 255 |
| Colors.ListRoundTrip | png_expand.py:50-56 | every integer colour, negative components included, written as `r,g,b,a`, or as `r,g,b` when alpha is 255, parses back to itself |
| Colors.ListSpecParses | png_expand.py:50-56 | the list branch reads a rendered list back to the colour |
| Colors.RenderedListParses | png_expand.py:52 | any list of integers written by `str` parses back, piece by piece, to the same list |
| Colors.NameExamples | png_expand.py:14-32 | `RED` gives (255,0,0,255); `transparent` and `Clear` give (0,0,0,0) |
| Colors.HexExample | png_expand.py:42-47 | `#00FF0080` gives (0,255,0,128) |
| Colors.UnknownExample | png_expand.py:60 | `bogus` is the format error |
| Colors.ListExample | png_expand.py:50-54 | `10,20,30` gives (10,20,30,255) |
| Colors.SignedHexExample | png_expand.py:38-41 | `#-10000` gives (-1,0,0,255) |
| OutputNames.Descriptor | png_expand.py:67-74 | the descriptor is `clear` exactly for (0,0,0,0) and `white` exactly for opaque white |
| OutputNames.AlphaSuffix | png_expand.py:73-74 | the alpha suffix is empty exactly when alpha is 255, and otherwise starts with `-` |
| OutputNames.DescriptorRoundTrip | png_expand.py:67-74 | every colour's descriptor decodes back to the colour; for colours other than clear and white, what follows `r-g-b` is the alpha suffix |
| OutputNames.DescriptorExamples | png_expand.py:71-74 | opaque black is `0-0-0`; (255,0,0,128) is `255-0-0-128` |
| OutputNames.DescriptorInjective | png_expand.py:67-74 | distinct colours have distinct descriptors |
| OutputNames.TagRoundTrip | png_expand.py:76 | `_padded_{p}px_{desc}` decodes back to the padding and the colour |
| OutputNames.PathParts | png_expand.py:77 | directory plus file name is the path, and stem plus extension is the file name |
| OutputNames.Tag | png_expand.py:76 | the tag starts with `_padded_` and contains no `/` and no `.` |
| OutputNames.Suffix | png_expand.py:77 | an extension is empty or a `.` followed by at least one more character |
| OutputNames.OutputFilename | png_expand.py:62-77 | the generated path is the input path lengthened by exactly the tag |
| OutputNames.DirectoryKept | png_expand.py:77 | the generated path keeps the input's directory, and its file name is the stem, the tag and the extension |
| OutputNames.ExtensionKept | png_expand.py:77 | the generated name keeps the input's extension, and its stem is the old stem plus the tag, for every name except one of two or more characters that ends in `.`; a name like `.bashrc` has no extension before or after |
| OutputNames.NoDotNoSuffix | png_expand.py:77 | a name whose only `.` is its first character, with dot-free text added, still has no extension |
| OutputNames.KeepsSuffix | png_expand.py:77 | a non-empty stem followed by `.` and a dot-free extension has exactly that stem and extension |
| OutputNames.OutputNameInjective | png_expand.py:62-77 | for one input path, different padding or colour gives a different file name |
| OutputNames.PhotoTag | png_expand.py:76 | the tag for padding 50 and a clear background is `_padded_50px_clear` |
| OutputNames.PhotoExample | png_expand.py:62-77 | `photo.png` with padding 50 and a clear background gives `photo_padded_50px_clear.png` |
| Canvas.CanvasLayout | png_expand.py:138-147 | the original sits at (p, p) with equal borders on opposite sides, and it fits inside the canvas when p >= 0 |
| Canvas.Composite | png_expand.py:148 | a canvas pixel inside the pasted rectangle is the original's pixel at the offset position; every other is the background |
| Canvas.Paste | png_expand.py:143-148 | the composed canvas has the layout's size |
| Canvas.Expand | png_expand.py:137-148 | expansion succeeds exactly when both new sides are non-negative; the result is (w+2p) by (h+2p) |
| Canvas.BorderIsBackground | png_expand.py:143-148 | every pixel outside the pasted rectangle is the background, giving a border p wide on all four sides |
| Canvas.CenterIsOriginal | png_expand.py:146-148 | the pixel at (x+p, y+p) is the original's pixel (x, y) |
| Canvas.CropUndoesExpand | png_expand.py:146-148 | cropping the padding away gives back the original |
| Canvas.PaddingAdds | png_expand.py:138-140 | expanding by p and then by q equals expanding by p+q, so expansion has no fixed point |
| Canvas.CompositeAdds | png_expand.py:138-148 | compositing onto a canvas padded by p with a further padding q gives the colour of padding p+q at every position |
| Canvas.ExpandGrows | png_expand.py:138-140 | a positive padding always changes the image |
| Canvas.OutputMode | png_expand.py:133-152 | the saved image is always RGBA, because the RGB test runs after the conversion to RGBA |

## Left out

- `main` (lines 79-119) is left out. It covers argument parsing, the
  default padding of 50 and colour `clear`, the two confirmation lines,
  `Error: ...` messages and exit code 1. This is command-line plumbing.
  One consequence is not modelled: an empty `-c ""` gives `None`, and
  without an explicit output path `generate_output_filename` then fails
  with a `TypeError` when it subscripts `None`.
- `Image.open`, `convert`, `Image.new` and `save` are left out. They are
  calls into Pillow and do file I/O. Only Pillow's refusal of a negative
  canvas size is modelled, as `NegativeSize`. An empty specification's
  `None` background reaching `Image.new` is not modelled.
- Canvas.Expand: models `paste` as an overwrite of the covered pixels. The
  source pastes with the image's own alpha as the mask. That blending is
  Pillow's, and the overwrite equals it only where source pixels have
  alpha 255.
- Canvas.Expand: takes any integer colour. How Pillow stores out-of-range
  components from the comma branch is not modelled.
- Numerals.ParseInt: accepts an optional `+` or `-` and ASCII digits only.
  Python's `int` also accepts underscores between digits (`1_0`) and
  non-ASCII decimal digits. The model treats both as errors.
- Numerals.ParseInt: has no limit on the number of digits. Python 3.11
  and later (and security releases of 3.7-3.10) raise `ValueError` on a
  decimal literal of more than 4300 digits, which the comma branch turns
  into the format error.
- Numerals.ParseHexPair: Python's `int(.., 16)` also accepts non-ASCII
  decimal digits, and strips non-ASCII whitespace (`int("\xa05", 16)` is
  5). The model treats both as errors.
- Text.Strip: strips ASCII whitespace only. Python also strips Unicode
  spaces such as U+00A0.
- Text.Lower: folds ASCII letters only. Python's `str.lower` also folds
  non-ASCII letters. One of them, the Kelvin sign U+212A, becomes `k`, so
  Python accepts that spelling of `black`. The model does not.
- OutputNames.OutputFilename: splits the path at its last `/`. `pathlib`
  normalisation is not modelled. That covers a leading `./`, repeated or
  trailing slashes, and an empty path.
- OutputNames.ExtensionKept: not stated for a name of two or more
  characters ending in `.` (such as `a.`). There pathlib's rule makes the
  inserted tag part of a new extension.
- OutputNames.Suffix: follows `pathlib` before Python 3.14, where a name
  ending in a single `.` has no extension. Python 3.14 reports that `.` as
  the extension.
- `setup.py` is left out. It is packaging metadata.
