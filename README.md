# Majority-color extractor

This project models the color extractor of the Image Color Extractor web
app (`getMajorityColor` in `src/App.js`), together with the `#rrggbb` formatter it
ends with and the channel parsing of `hexToRGBA`. The model takes the flat RGBA
byte buffer that the canvas returns. It then does what the extractor does in one scan:

- it skips fully transparent pixels;
- it composites every other pixel onto a white background;
- it skips pixels whose three composited channels are all above 240;
- it counts each remaining color;
- it keeps a running maximum and the color that holds it.

At the end the extractor either resolves with the winner's `#rrggbb` text or
rejects with "No significant non-white color found in the image". It resolves
only if the winner's share of the counted pixels is strictly above 10%.

The model has five modules:

- `Options`: the optional value used for `null` and `NaN`.
- `Raster`: bytes, pixels, decoding the buffer into pixels, compositing onto
  white, and the eligibility test. The compositing is integer arithmetic:
  `Math.round(c * a/255 + 255 * (1 - a/255))` is `(c*a + 255*(255-a) + 127) / 255`.
  The exact value is `x/255` for an integer `x`, so it never lies exactly
  half-way between two integers.
- `HexColor`: `Number.prototype.toString(16)`, the `((1 << 24) + …).toString(16).slice(1)`
  formatter, JavaScript's `slice`, and `parseInt(_, 16)`.
- `ColorTally`: the specification of the scan. It is written as folds over the
  first `n` pixels:
  - `EligibleColors` gives the composited colors that are counted;
  - `Tally` gives the dictionary of counts;
  - `Lead` gives the running maximum and its color;
  - `Extract` gives the final outcome.

  The lemmas about these folds state what the extractor promises.
- `Extractor`: the loop itself, as a method over the byte buffer. Its map
  variable and loop variables are tied to the fold of the prefix scanned so far.

## Model

| member | source | states |
|---|---|---|
| Raster.Pixels | src/App.js:26-30 | the buffer read four bytes at a time as (r, g, b, a) pixels, one pixel per four bytes |
| Raster.PixelAt | src/App.js:26-30 | the k-th decoded pixel is the four bytes at offsets 4k … 4k+3 of the buffer |
| Raster.Blend | src/App.js:36-39 | a composited channel lies in 0..255, is the integer nearest to `c·a/255 + 255·(1 − a/255)`, is never darker than the channel, and equals the channel when alpha is 255 |
| Raster.CompositeOf | src/App.js:36-39 | a fully opaque pixel composites to exactly its own (r, g, b); compositing onto white never lowers a channel |
| Raster.NearWhite | src/App.js:42 | a composited color is skipped as white exactly when its darkest channel is above 240 |
| Raster.Eligible | src/App.js:33-42 | a pixel is counted when its alpha is not 0 and its composite is not near-white; every counted pixel has alpha at least 15 |
| Raster.FaintPixelIneligible | src/App.js:33-42 | a pixel with alpha below 15 always composites to near-white, so it is never counted |
| ColorTally.EligibleColors | src/App.js:42-57 | the composites of the counted pixels among the first n, in scan order; at most one per pixel scanned |
| ColorTally.EligibleColorsCount | src/App.js:57 | `totalNonWhitePixels` after n pixels is the number of eligible pixels among them |
| ColorTally.Tally | src/App.js:44-50 | the counts after the first n pixels; every color present has a count of at least 1 |
| ColorTally.Lead | src/App.js:23-55 | the running maximum and its color after the first n pixels; there is no color exactly while the maximum is 0 |
| ColorTally.Extract | src/App.js:60-67 | the verdict: a rejection always carries the fixed message, and a resolved text is seven characters starting with `#` |
| ColorTally.TransparentPixelIgnored | src/App.js:33 | a pixel with alpha 0 leaves the counts, the number of counted pixels and the leader unchanged |
| ColorTally.IneligiblePixelIgnored | src/App.js:33-42 | a transparent or near-white pixel leaves the counts, the counted colors and the leader unchanged |
| ColorTally.VisiblePixelCounted | src/App.js:42-57 | a pixel with alpha above 0 and a composited channel at most 240 adds one to its color's count and to the total, and becomes the leader exactly when its new count exceeds the old maximum |
| ColorTally.TallyIsMultiset | src/App.js:44-50 | the count kept for each color is the number of counted pixels whose composite is that color |
| ColorTally.TallyKeys | src/App.js:44-50 | a color is a key of the counts exactly when some eligible pixel composites to it |
| ColorTally.TallySumIsTotal | src/App.js:44-57 | the counts add up to the number of counted pixels |
| ColorTally.TallyGrows | src/App.js:46-50 | a color's count never decreases as the scan goes on |
| ColorTally.LeadIsMaximum | src/App.js:23-55 | from the initial values at lines 23-24 and through every update at lines 52-55: the leader's count bounds every count; there is no leader exactly when the counts are empty; the leader's color has the leader's count; with no leader the maximum is 0 |
| ColorTally.LeadNeverDecreases | src/App.js:52-55 | the running maximum never decreases as the scan goes on |
| ColorTally.LeadFirstToReach | src/App.js:52-55 | the leader is a color whose count reached the final maximum at some pixel before which every count was below that maximum |
| ColorTally.FirstReachUnique | src/App.js:52-55 | only one pixel and one color can be first to reach a given count |
| ColorTally.TieBreak | src/App.js:52-55 | the color that first reached the final maximum in scan order is the leader; a color that only ties later never replaces it |
| ColorTally.ExtractResolvesIffSignificant | src/App.js:60-67 | the extractor resolves exactly when some counted color has ten times its count above the number of counted pixels; otherwise it rejects with the fixed message |
| ColorTally.ExtractWinner | src/App.js:60-65 | a resolved text is the `#rrggbb` of a counted color that has the largest count, passes the 10% threshold, and is first in scan order to reach its count |
| ColorTally.NoEligiblePixelRejects | src/App.js:60-67 | a buffer with no counted pixel is rejected |
| ColorTally.AllTransparentRejects | src/App.js:33-67 | a buffer whose pixels are all transparent is rejected |
| ColorTally.AllNearWhiteRejects | src/App.js:42-67 | a buffer whose pixels all composite to near-white is rejected |
| Extractor.GetMajorityColor | src/App.js:21-68 | the loop over the byte buffer returns exactly the outcome `Extract` gives for the decoded pixels |
| HexColor.ToHex | src/App.js:62-64 | the formatter's text is `#` followed by each channel as two zero-padded lower-case digits, in the order r, g, b |
| HexColor.ToHexDigits | src/App.js:62-63 | `toString(16)` of 2^24 + r·2^16 + g·2^8 + b is a `1` followed by the three two-digit channels |
| HexColor.LeadingOne | src/App.js:62-64 | writing 16^k + v in base 16 gives a leading 1 and then v padded to k digits, so `slice(1)` keeps exactly the padded digits |
| HexColor.SixDigits | src/App.js:62 | the six padded digits of r·16^4 + g·16^2 + b are the digits of r, then g, then b |
| HexColor.ToHexShape | src/App.js:62-64 | the text is seven characters: `#` and six lower-case hex digits |
| HexColor.ToBase16 | src/App.js:63 | `toString(16)`: at least one lower-case hex digit, with no leading zero unless the number is 0 |
| HexColor.ToBase16RoundTrip | src/App.js:62-63 | reading back the digits that `toString(16)` writes gives the number again |
| HexColor.Slice | src/App.js:91-93 | `slice(i, j)` has the clamped length and the characters of the text from i on |
| HexColor.HexDigitPrefix | src/App.js:91-93 | `parseInt` reads the longest prefix of hex digits: every one is a digit, and the next character is not |
| HexColor.ParseInt16 | src/App.js:91-93 | `parseInt(_, 16)` is `NaN` exactly when the text is empty or does not start with a hex digit |
| HexColor.ParseHex | src/App.js:91-93 | the three channels `hexToRGBA` reads; each is a number exactly when the text has a hex digit at position 1, 3 or 5 respectively, and `NaN` otherwise |
| HexColor.ParseHex2 | src/App.js:91-93 | parsing a channel's two digits gives the channel back |
| HexColor.ParseHexToHex | src/App.js:62-93 | reading slices [1,3), [3,5) and [5,7) of a formatted color with `parseInt(_, 16)` recovers r, g and b |
| HexColor.ToHexInjective | src/App.js:62-64 | two colors with the same text are the same color |

## Left out

- Image loading, the canvas and the browser are left out: `new Image`, `onload`/`onerror`,
  `drawImage`, `getImageData` and `URL.createObjectURL` are all browser I/O. The
  decoded buffer is a parameter instead. The canvas guarantees two things, so
  they are preconditions: every element is a byte, and the length is a
  multiple of 4.
- The code performs no length check. So the model has no invalid-input error.
- The Promise, `resolve`/`reject`, React state, `handleImageUpload`,
  `console.error` and the JSX are left out. The outcome is the `Outcome` value:
  resolved with a text, or rejected with the message.
- The textual `"r,g,b"` dictionary key and its `split(",").map(Number)` are
  left out. The key is the `Rgb` triple itself, which names the same color
  exactly when the text does.
- `hexToRGBA`'s `alpha` argument and its interpolation into `rgba(...)` are
  left out. Its argument is a floating-point number, and the result is display text.
- ParseInt16 models `parseInt(_, 16)` on texts without leading whitespace, sign
  or `0x` prefix. Those never occur in the slices of a formatted color.
- Floating point is replaced by exact integers:
  - the rounding in compositing is modelled as described above;
  - the threshold test `maxCount / totalNonWhitePixels > 0.1` is modelled as
    `10 * maxCount > totalNonWhitePixels`. These agree for any pixel count
    a canvas can hold.
  - JavaScript numbers are unbounded integers here. Counts stay far below 2^53.
- With alpha 128 a black pixel composites to 127: 255·(1 − 128/255) is exactly
  127, and `Blend(0, 128)` is 127.
