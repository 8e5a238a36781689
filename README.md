# mujtaba_charm utilities in Dafny

This is a model of the small pure core of the `mujtaba_charm` package, with proofs about it.

- `sample.dfy` (module `Sample`) covers `hello` and `color_string` from `mujtaba_charm/utils/sample.py`.
  - `hello` greets a name. A value that is not a string raises a `TypeError`.
  - `color_string` wraps text in an ANSI select-graphic-rendition colour sequence (ECMA-48, section 8.3.117). The colour is looked up in a fixed three-entry table after lower-casing. Any other colour raises a `ValueError`.
  - Python exceptions become the `Err` side of a `Result`.
  - Python's dynamic typing of `hello`'s argument is modelled by a `PyValue` datatype.
- `pystr.dfy` (module `PyStr`) models two Python string operations. `str.lower()` is what `color_string` applies to its colour. The substring test `needle in hay` is what the unit tests use to inspect the exception messages; `Hello`'s contract states its messages in those terms. The colour lookup `color not in color_codes` is a dictionary-key test and is Dafny's map membership.
- `image.dfy` (module `Image`) covers `get_image_overlapping` from `mujtaba_charm/analysis/image.py`. A grey-scale image is a grid of intensities (`seq<seq<int>>`). The overlap is a boolean grid of the same shape. A pixel of the overlap is set exactly when both images are dark there, meaning strictly below 128.

Each operation has a partner that the lemmas connect it to:
- the greeting has `GreetedName`, which reads the name back out;
- the colouring has `Uncolor`, which strips the codes;
- lower-casing has a characterisation by letter-wise case variants;
- the overlap has the dark masks of its inputs, its symmetry and the blank page.

## Model

| member | source | states |
|---|---|---|
| `PyStr.LowerChar` | mujtaba_charm/utils/sample.py:63 | ASCII capitals become the matching small letter (code + 32), every other character is kept, and no capital remains. |
| `PyStr.Lower` | mujtaba_charm/utils/sample.py:63 | `color.lower()` keeps the length and lower-cases each character in place. |
| `PyStr.Contains` | tests/test_sample.py:12 | Python's substring `in`: a contained string is no longer than the string containing it, and the empty string is in every string. |
| `PyStr.ContainsMiddle` | tests/test_sample.py:22-24 | A string built as `a + b + c` contains `b`. This is how each message is shown to contain the phrase the tests look for. |
| `PyStr.LowerIdempotent` | mujtaba_charm/utils/sample.py:63 | Lower-casing an already lower-cased colour changes nothing. |
| `PyStr.LowerMatches` | mujtaba_charm/utils/sample.py:63 | A string lower-cases to a lower-case word exactly when it is that word with each letter in either case (both directions). |
| `Sample.TypeName` | mujtaba_charm/utils/sample.py:34 | `type(name).__name__` is never empty, and it is "str" exactly for a string. |
| `Sample.NotAStringMessage` | mujtaba_charm/utils/sample.py:34 | The TypeError message starts with a space and contains both the value's type name and "name should be of string type". |
| `Sample.Hello` | mujtaba_charm/utils/sample.py:8-36 | Succeeds exactly for a string. The greeting is `|name| + 7` long, starts with "hello ", ends with "!", and holds the name unchanged in between. Any other value is a TypeError whose message contains "name should be of string type" and the value's type name. |
| `Sample.GreetedName` | mujtaba_charm/utils/sample.py:36 | The name read back from a greeting is 7 characters shorter than the greeting. |
| `Sample.HelloString` | mujtaba_charm/utils/sample.py:36 | For every string `name`, the result is `"hello " + name + "!"`. |
| `Sample.HelloRoundTrip` | mujtaba_charm/utils/sample.py:36 | Greeting `name` gives `g` exactly when reading the name back from `g` gives `name`. |
| `Sample.HelloInjective` | mujtaba_charm/utils/sample.py:36 | Two names with the same greeting are the same name. |
| `Sample.HelloExamples` | tests/test_sample.py:6-8 | The default argument gives "hello world!" and "john" gives "hello john!". |
| `Sample.HelloRejectsInt` | mujtaba_charm/utils/sample.py:33-34 | `hello(2024)` is a TypeError with message " int is not allowed, name should be of string type". |
| `Sample.InvalidColorMessage` | mujtaba_charm/utils/sample.py:65 | The ValueError message is the colour's length plus 63 characters long. It starts with "Invalid color: ", followed directly by the colour, so it contains the colour. |
| `Sample.ColorString` | mujtaba_charm/utils/sample.py:60-67 | Succeeds exactly when the lower-cased colour is in the table. The result is `|text| + 9` long: the colour's 5-character code, then `text` unchanged, then the 4-character reset code. Otherwise it is a ValueError whose message names the lower-cased colour. |
| `Sample.Uncolor` | mujtaba_charm/utils/sample.py:67 | Stripping the codes leaves a string 9 characters shorter. |
| `Sample.ColorTable` | mujtaba_charm/utils/sample.py:60-62 | The table's keys are exactly red, blue and green, with codes ESC[91m, ESC[94m and ESC[92m. Every code is 5 characters and the reset code is 4. |
| `Sample.ColorStringValid` | mujtaba_charm/utils/sample.py:67 | For a valid colour the result is code + text + reset. |
| `Sample.ColorStringRoundTrip` | mujtaba_charm/utils/sample.py:62-67 | Uncolouring a coloured text gives the text back. Every string that uncolours to `text` is the colouring of `text` in some table colour. |
| `Sample.ColorCaseInsensitive` | mujtaba_charm/utils/sample.py:63-64 | Colours that are equal after lower-casing give the same result. This includes a colour and its lower-cased form. |
| `Sample.ColorAccepted` | mujtaba_charm/utils/sample.py:60-64 | A colour is accepted exactly when it spells red, blue or green in any mix of letter cases. |
| `Sample.ColorStringExamples` | tests/test_sample.py:15-18 | "Hello, world!" in red, blue and green gives the three expected escape-wrapped strings. |
| `Sample.ColorStringUpperCase` | mujtaba_charm/utils/sample.py:63 | "RED" gives the same result as "red". |
| `Sample.ColorStringRejectsYellow` | tests/test_sample.py:20-25 | "yellow" is a ValueError with message "Invalid color: yellow. Allowed colors are 'red', 'blue', and 'green'." |
| `Image.OverlapRow` | mujtaba_charm/analysis/image.py:56 | One row of the overlap has the rows' length and is set exactly where both pixels are dark. |
| `Image.Overlap` | mujtaba_charm/analysis/image.py:43-57 | The result has the inputs' rows and columns. Pixel (i, j) is set exactly when both `img1[i][j]` and `img2[i][j]` are dark (`IsDark`: strictly below the threshold 128). |
| `Image.DarkMask` | mujtaba_charm/analysis/image.py:56 | The mask of one image's dark pixels, in that image's shape. |
| `Image.BlankLike` | mujtaba_charm/analysis/image.py:33 | A page of a given image's shape with every pixel at the background value 255. |
| `Image.ThresholdIsStrict` | mujtaba_charm/analysis/image.py:56 | A pixel of value exactly 128 in either image is never in the overlap. |
| `Image.OverlapSymmetric` | mujtaba_charm/analysis/image.py:56 | Swapping the two images gives the same overlap. |
| `Image.OverlapOfMasks` | mujtaba_charm/analysis/image.py:56 | The overlap is the pixel-wise AND of the two images' dark masks. |
| `Image.OverlapSelf` | mujtaba_charm/analysis/image.py:56 | The overlap of an image with itself is exactly its dark mask. |
| `Image.OverlapBlank` | mujtaba_charm/analysis/image.py:56 | The overlap with an all-white page of the same shape has no pixel set. |
| `Image.OverlapWithinEach` | mujtaba_charm/analysis/image.py:54-56 | Every overlap pixel is dark in both input images. |

`get_image_overlapping` copies its inputs into new arrays before comparing them (image.py:54-55). In the model, grids are immutable values, so the inputs cannot change and the result is a new value.

## Left out

- `fetch_mnist` (image.py:7-17): downloads a dataset and writes a file. This is network and file I/O.
- `create_digit_image` (image.py:20-40): renders text with a TrueType font through PIL. This is a foreign library with floating-point centring. Only its background value 255 is used, in `BlankLike`.
- `show_images` (image.py:60-82): matplotlib display.
- `read_file`, `clean_data`, `descriptive_statistics`, `data_visualization` (exploratory_data_analysis.py): CSV reading with glob, pandas cleaning calls, printing and plotting. All of it is glue over pandas and matplotlib with no logic of its own.
- `big_data_analytics`, `precision_recall_visualization`, `model_comparison_histogram`: `mujtaba_charm/analysis/__init__.py:7` imports these names, but no shown file defines them. The threshold optimiser is therefore not part of this model.
- `mujtaba_charm/__init__.py` and `mujtaba_charm/analysis/__init__.py`: package imports only.
- `Image.Overlap`: requires equal-shaped grids. numpy's broadcasting of unequal shapes is not modelled. The pixel type is any integer, which covers the 0..255 of `uint8` images.
- `PyStr.LowerChar`, `PyStr.Lower`: lower-case ASCII letters only, whereas Python's `str.lower()` follows Unicode. A non-ASCII capital such as 'À' is kept unchanged here, while Python lower-cases it. Python's `lower()` can also lengthen a string ('\u0130'.lower() has 2 characters), which `Lower`'s length-preserving contract does not capture. The only non-ASCII characters whose lower case is ASCII are U+0130 and U+212A, and neither gives a letter of "red", "blue" or "green". So which colours are accepted is exact. The lower-cased colour quoted in the ValueError message differs from Python's for non-ASCII input.
- `Sample.ColorString`: takes `text` and `color` as strings. Other argument types are not modelled:
  - A `color` with no `lower()` method raises AttributeError at sample.py:63.
  - A `bytes` or `bytearray` colour does have `lower()`. It fails the lookup and reaches the ValueError at sample.py:65, with the bytes' `repr` in the message.
  - A non-string `text` is formatted with `str()`.
- `Sample.Hello`: Python values are limited to str, int, float, bool, None and list. The TypeError message is modelled for exactly these type names.
- `Sample.HelloRejectsInt`, `Sample.ColorStringRejectsYellow`, `Sample.ColorStringExamples`: the expected strings are written as concatenations of two or three literals. They denote the same strings as the tests' single literals.
- `Sample.Hello`: the TypeError message keeps the leading space that sample.py:34 produces. The docstring example at sample.py:30 shows it without that space.
