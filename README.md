# Weather e-paper server: bitplane encoders and request dispatch

A model of the core of a small weather server for a LilyGO T5 4-tone e-paper display.
For `GET /weather?lat=..&lon=..&alt=..&format=eink|svg|png` the server fetches a forecast,
fills an SVG template with the values, and returns either the SVG, its rendering as PNG, or
the PNG encoded into the display's two 1-bit planes. An older stand-alone server
(`server.py` at the repository root) encodes a 4-color indexed PNG into the same planes.

Files:

- `wrappers.dfy` — `Option` and `Result`.
- `bitplane.dfy` (module `Bitplane`) — the format shared by both encoders: the four levels and
  their (ink, color) bit pairs, MSB-first packing of eight pixels per byte, the planes, the
  encoded body (ink plane then color plane), the display's decoder, the loop state both
  encoding loops keep, and `CountAndFlush`, the end of each iteration that both loops share.
- `eink.dfy` (module `Eink`) — `to_eink`: classification of alpha samples on strict
  thresholds and the imperative encoding loop, proved to produce `Encode(Classified(pixels))`.
- `indexed.dfy` (module `Indexed`) — the palette-index loop of the root `server.py`.
- `text.dfy` (module `Text`) — Python's `str(int)`, `minmax`, `str.replace`, and the
  substitution loop of `get_svg`.
- `dispatch.dfy` (module `Dispatch`) — `get_handler`, `parse_params`, the `send_*` handlers,
  `weather` and the status mapping of `do_GET`, as pure functions over an `Env` of injected
  collaborators.

Behaviour of the code worth knowing:

- Each plane has `n / 8` bytes, rounded down. A byte is appended only after the eighth shift,
  and the accumulators are never flushed after the loop. So the last `n % 8` pixels leave no
  trace, and the body has `2 * (n / 8)` bytes. A reader expecting a zero-padded last byte will
  not find one.
- The root `server.py` sends the 200 status line before it reads and encodes the image. It has
  no error handling. Only `server/server.py` computes the body before sending the status.

Modelling choices:

- Bytes are the `byte` newtype (0..255), because `bytearray.append` accepts only those values.
  The accumulators are unbounded naturals, and `<<= 1` is doubling. The loops prove that each
  accumulator stays below `2^bit`, so every appended value fits.
- Pixel samples are `seq<int>` and palette indices are `int`. The image libraries that produce
  them are parameters.
- Strings are `seq<char>`. `str.replace` is modelled in full, including an empty key, which
  inserts the value before every character and at the end.

## Model

| member | source | states |
|---|---|---|
| Bitplane.LevelOf | server/server.py:109-113 | the display's reading of a bit pair: (1,1) black, (1,0) gray1, (0,1) gray2, (0,0) white; it inverts the (ink, color) bits of each level |
| Bitplane.PackBits | server/server.py:126-144 | an accumulator that had k bits shifted in, starting from 0, is below 2^k |
| Bitplane.PackBitsAt | server/server.py:126-150 | the j-th bit shifted into an accumulator ends up at position k-1-j, i.e. MSB first |
| Bitplane.ShiftPixel | server/server.py:127-144 | one shift of both accumulators advances the loop state by one pixel and keeps each accumulator below 2^bit |
| Bitplane.ShiftPlane | server/server.py:127-144 | in one plane, the accumulator with bit i shifted in is the packing of one more bit and stays below 2^(bit+1) |
| Bitplane.CountAndFlush | server/server.py:144-150 | the end of an iteration moves the loop state on by one pixel: the bit count advances, and after the eighth bit both bytes are appended and reset |
| Bitplane.FlushBytes | server/server.py:145-150 | after 8 shifts both accumulators are below 256; appending them and resetting to 0 keeps the loop state |
| Bitplane.FinishEncoding | server/server.py:126-152 | when every pixel is consumed, the planes hold exactly the n/8 complete bytes and the partial byte is dropped |
| Bitplane.PlaneBitAt | server/server.py:126-150 | bit (7-j) of byte k of a plane is the plane's bit for pixel 8k+j |
| Bitplane.UnpackPlane | server/server.py:126-150 | unpacking a plane gives back the first 8*(n/8) bits, in order |
| Bitplane.Encode | server/server.py:152 | the body has 2*(n/8) bytes: the ink plane, then the color plane |
| Bitplane.DecodeEncode | server/server.py:109-113 | decoding each (ink, color) bit pair of the body reproduces the first 8*(n/8) levels, in order |
| Eink.Classify | server/server.py:130-142 | the ink bit is set iff the sample is above 80; the color bit iff it is above 125 or in 36..80 |
| Eink.ClassifyMonotone | server/server.py:130-142 | a larger sample is never classified lighter |
| Eink.ClassifyBoundaries | server/server.py:130-142 | 126 is black, 125 gray1, 80 gray2, 35 and 0 white: boundaries land in the lighter bucket |
| Eink.ShiftSample | server/server.py:127-142 | each accumulator doubles and takes 1 exactly when the sample sets that plane's bit: above 80 for ink, above 125 or in 36..80 for color |
| Eink.ToEink | server/server.py:116-152 | the loop returns exactly the ink plane followed by the color plane of the classified samples, 2*(n/8) bytes |
| Eink.EinkBitLayout | server/server.py:126-150 | bit (7-j) of ink byte k is set iff sample 8k+j > 80; of color byte k iff that sample > 125 or in 36..80 |
| Eink.EinkRoundTrip | server/server.py:109-152 | decoding the body reproduces the classification of the first 8*(n/8) samples, in order |
| Indexed.PaletteLevel | server.py:42-50 | index 0 sets both bits, 1 the black bit only, 2 the color bit only, any other value neither |
| Indexed.PaletteIndex | server.py:13-16 | the level-to-index table is the inverse of the palette mapping on 0..3 |
| Indexed.ShiftIndex | server.py:39-50 | each accumulator doubles and takes 1 exactly when the index sets that plane's bit: 0 or 1 for black, 0 or 2 for color |
| Indexed.EncodeIndexed | server.py:30-58 | the loop returns the black plane and the color plane of the palette levels, each n/8 bytes; together they are the encoded body |
| Indexed.IndexedBitLayout | server.py:37-58 | bit (7-j) of black byte k is set iff pixel 8k+j is 0 or 1; of color byte k iff it is 0 or 2 |
| Indexed.IndexedRoundTrip | server.py:4-7 | for indices in 0..3, decoding each bit pair recovers the index of each of the first 8*(n/8) pixels |
| Indexed.OutOfPaletteIsWhite | server.py:42-50 | an index other than 0, 1, 2 is read back as white (3) |
| Text.NatToString | server/server.py:55-56 | the decimal text of a natural is non-empty, made of digits only, and starts with '0' only for zero (no leading zeros) |
| Text.ParseNatToString | server/server.py:55-56 | the digits of a natural read back to that natural |
| Text.IntToString | server/server.py:55-56 | `str(int)` starts with '-' iff the number is negative, and has no other '-' |
| Text.IntToStringRoundTrip | server/server.py:55-56 | the text of an int reads back to that int |
| Text.MinMaxRoundTrip | server/server.py:51-56 | the minmax label gives back both rounded numbers, in their order, for every pair, negative ones included |
| Text.MinMaxInjective | server/server.py:51-56 | distinct (min, max) pairs never give the same label |
| Text.MinMaxExamples | server/server.py:247-252 | the labels of the unit tests with non-negative values: "1-2", "2-1", "1", "2-10" |
| Text.MinMaxNegativeExamples | server/server.py:253-255 | the labels of the unit tests with a negative value: "-2-10", "2--10", "-2--10" |
| Text.FindFromFirst | server/server.py:99 | the search finds the first occurrence of the key at or after the start, and fails only when there is none |
| Text.ReplaceAllIsReplaceByFind | server/server.py:99 | left-to-right replacement equals repeated find-splice-continue for every non-empty key |
| Text.ReplaceAbsent | server/server.py:99 | a string without the key is returned unchanged |
| Text.SubstituteAppend | server/server.py:96-100 | substitution goes key by key in the listed order |
| Text.SubstituteNoKeys | server/server.py:96-100 | a template containing none of the keys is returned unchanged |
| Text.GetSvg | server/server.py:96-100 | the loop's result is the template with every pair substituted in order |
| Dispatch.GetHandler | server/server.py:171-176 | a handler exists iff the format is "eink", "svg" or "png", and it is the one of that name |
| Dispatch.VariablesReadBack | server/server.py:75-92 | the #t6# value reads back to the rounded minimum and maximum, and #temp#, #wind#, #feel# to their integers |
| Dispatch.ParseParams | server/server.py:178-187 | parsing succeeds iff lat and lon parse as floats, alt as an int and the format is known, and then returns exactly those values and the named format; every failure is an InputValidationException |
| Dispatch.SvgWithoutPlaceholders | server/server.py:96-100 | a template holding none of the nine placeholders is sent unchanged |
| Dispatch.Render | server/server.py:162-169 | a handler succeeds iff the template is read, the variables extracted and, as its format needs, the PNG rendered and decoded; it then has its format's content type and the UTF-8 SVG, the PNG, or the eink planes of the alpha samples as body; any failure is an exception other than the validation error |
| Dispatch.Weather | server/server.py:189-192 | the request fails with the validation error exactly when parameter parsing fails |
| Dispatch.DoGet | server/server.py:194-212 | 500 if the URL does not parse; otherwise 404 iff the path is not /weather, 400 iff parsing fails, 500 iff the fetch or the rendering fails; only a 200 has a content type and a body |
| Dispatch.SvgResponse | server/server.py:162-163 | a fetched svg request is a 200 with image/svg+xml and the encoded filled-in template |
| Dispatch.PngResponse | server/server.py:165-166 | a fetched png request is a 200 with image/png and the rasterizer's image iff the rasterizer succeeds, and a 500 otherwise |
| Dispatch.EinkResponse | server/server.py:168-169 | a successful eink request is a 200 with application/octet-stream, a body of 2*(n/8) bytes that decodes to the classification of the samples |

## Left out

- HTTP plumbing (`BaseHTTPRequestHandler`, `send_response`, headers, `wfile.write`,
  `HTTPServer`, `serve_forever`, `main`) is I/O. The model returns a `Response` value instead.
- `urlparse` and `parse_qsl` are library parsing. The model takes their result as an
  `Option<Url>` (the path and the query as a map), None where `urlparse` raises, for example
  on an unclosed IPv6 bracket (`http://[`). `do_GET` answers that with 500 for any path.
- `float()` and `int()` are library parsing. They are the `Env.parseFloat` and `Env.parseInt`
  parameters.
- `fetch_yr` uses the network, a timeout and a JSON decoder. Only its outcome is modelled, as
  `Env.fetch` returning the data or nothing.
- `get_variables` (JSON paths, rounding), `ico`, `file_to_bytes` and `file_to_str` are schema
  access, file reads and base64. They are `Env.extract` and `Env.template`. The template is None where `file_to_str`
  raises, for example on a missing file; `get_svg` reads it first, and the request gets a 500. `Variables` models
  only the key list and the `minmax` and `str(int)` formatting.
- `feelslike` and `ms2kmh` are floating-point arithmetic (`pow`, Python's half-to-even
  `round`). They are not modelled. The feels-like value arrives already computed in `Snapshot`.
- `minmax` is modelled over the already rounded integers, because Python's float `round` is not modelled.
- `svg2png`, `Image.open(...).convert(colors=4)`, `getdata` and `png.Reader.read_flat` are
  foreign libraries. They are `Env.toPng` and `Env.alpha`, and the encoders take the samples
  as a sequence.
- `str.encode()` is library encoding, given as `Env.utf8`.
- The `stderr` logging in `exception` and a failure while writing an already started response
  are I/O.
