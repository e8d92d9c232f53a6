/**
 * The request handling of the weather server: `parse_params`, `weather`, the `send_*`
 * handlers and the status mapping of `do_GET`.  Everything the server gets from libraries
 * or the network is a field of `Env`, so the handler is a function of its inputs.
 */
module Dispatch {
  import opened Wrappers
  import opened Bitplane
  import Eink
  import Text

  const WEATHER_PATH := "/weather"

  /** The three output formats, keyed by the `format` query parameter. */
  datatype Format = EinkFormat | SvgFormat | PngFormat

  function FormatName(f: Format): string
  {
    match f
    case EinkFormat => "eink"
    case SvgFormat => "svg"
    case PngFormat => "png"
  }

  function ContentType(f: Format): string
  {
    match f
    case EinkFormat => "application/octet-stream"
    case SvgFormat => "image/svg+xml"
    case PngFormat => "image/png"
  }

  /**
   * `get_handler`: a lookup in the table of handlers; a missing parameter or any other
   * name has no entry (a `KeyError` in the source).
   */
  function GetHandler(fmt: Option<string>): (r: Option<Format>)
    ensures r.Some? <==> fmt.Some? && fmt.value in {"eink", "svg", "png"}
    ensures r.Some? ==> FormatName(r.value) == fmt.value
  {
    match fmt
    case Some("eink") => Some(EinkFormat)
    case Some("svg") => Some(SvgFormat)
    case Some("png") => Some(PngFormat)
    case _ => None
  }

  /** The values `get_variables` takes from one forecast, already rounded and formatted. */
  datatype Snapshot = Snapshot(temp: int, wind: int, feel: int, ico: string, ico2: string,
                               r1: string, r6: string, t6Min: int, t6Max: int, time: string)

  const PLACEHOLDERS: seq<string> :=
    ["#temp#", "#wind#", "#feel#", "#ico#", "#ico2#", "#r1#", "#r6#", "#t6#", "#time#"]

  /** The placeholder/value pairs of `get_variables`, in the order the template is filled. */
  function Variables(w: Snapshot): (vars: seq<(string, string)>)
    ensures |vars| == |PLACEHOLDERS|
    ensures forall i :: 0 <= i < |vars| ==> vars[i].0 == PLACEHOLDERS[i]
  {
    [("#temp#", Text.IntToString(w.temp)),
     ("#wind#", Text.IntToString(w.wind)),
     ("#feel#", Text.IntToString(w.feel)),
     ("#ico#", w.ico),
     ("#ico2#", w.ico2),
     ("#r1#", w.r1),
     ("#r6#", w.r6),
     ("#t6#", Text.MinMax(w.t6Min, w.t6Max)),
     ("#time#", w.time)]
  }

  /** The t6 label reads back to the rounded extremes, and the three counts to their values. */
  lemma VariablesReadBack(w: Snapshot)
    ensures Text.ParseMinMax(Variables(w)[7].1) == (w.t6Min, w.t6Max)
    ensures Text.ParseInt(Variables(w)[0].1) == w.temp
    ensures Text.ParseInt(Variables(w)[1].1) == w.wind
    ensures Text.ParseInt(Variables(w)[2].1) == w.feel
  {
    var vars := Variables(w);
    assert vars[7].1 == Text.MinMax(w.t6Min, w.t6Max) && vars[0].1 == Text.IntToString(w.temp) &&
           vars[1].1 == Text.IntToString(w.wind) && vars[2].1 == Text.IntToString(w.feel);
    Text.MinMaxRoundTrip(w.t6Min, w.t6Max);
    Text.IntToStringRoundTrip(w.temp);
    Text.IntToStringRoundTrip(w.wind);
    Text.IntToStringRoundTrip(w.feel);
  }

  /** The exceptions `do_GET` tells apart: the validation error, and everything else. */
  datatype Exception = InputValidationException | FetchException | OtherException

  /**
   * The server's collaborators.  `parseFloat`/`parseInt` are Python's `float`/`int` (None
   * where they raise); `fetch` is `fetch_yr` (None on a non-200 status, a timeout or a
   * network error); `extract` is the JSON extraction, rounding, feels-like computation and
   * icon embedding of `get_variables` (None where it raises); `template` is the contents of
   * the SVG template file (None where `file_to_str` raises); `utf8` is `str.encode`; `toPng` is the SVG rasterizer; `alpha` decodes the
   * PNG into the alpha sample of each pixel, in row-major order.
   */
  datatype Env = Env(
    parseFloat: string -> Option<real>,
    parseInt: string -> Option<int>,
    fetch: (real, real, int) -> Option<string>,
    extract: string -> Option<Snapshot>,
    template: Option<string>,
    utf8: string -> seq<byte>,
    toPng: string -> Option<seq<byte>>,
    alpha: seq<byte> -> Option<seq<int>>)

  datatype Params = Params(lat: real, lon: real, alt: int, format: Format)

  function Lookup(query: map<string, string>, key: string): Option<string>
  {
    if key in query then Some(query[key]) else None
  }

  /** Converts a parameter that may be missing; a missing one fails like an unparsable one. */
  function ParseField<T>(parse: string -> Option<T>, v: Option<string>): Option<T>
  {
    match v
    case None => None
    case Some(s) => parse(s)
  }

  /**
   * `parse_params` over the query as a dictionary: every failure, whichever field causes
   * it, becomes an `InputValidationException`.
   */
  function ParseParams(env: Env, query: map<string, string>): (r: Result<Params, Exception>)
    ensures r.Failure? ==> r.error == InputValidationException
    ensures r.Success? <==>
              ParseField(env.parseFloat, Lookup(query, "lat")).Some? &&
              ParseField(env.parseFloat, Lookup(query, "lon")).Some? &&
              ParseField(env.parseInt, Lookup(query, "alt")).Some? &&
              "format" in query && query["format"] in {"eink", "svg", "png"}
    ensures r.Success? ==> FormatName(r.value.format) == query["format"]
    ensures r.Success? ==>
              ParseField(env.parseFloat, Lookup(query, "lat")) == Some(r.value.lat) &&
              ParseField(env.parseFloat, Lookup(query, "lon")) == Some(r.value.lon) &&
              ParseField(env.parseInt, Lookup(query, "alt")) == Some(r.value.alt)
  {
    var lat := ParseField(env.parseFloat, Lookup(query, "lat"));
    var lon := ParseField(env.parseFloat, Lookup(query, "lon"));
    var alt := ParseField(env.parseInt, Lookup(query, "alt"));
    var handler := GetHandler(Lookup(query, "format"));
    if lat.None? || lon.None? || alt.None? || handler.None? then Failure(InputValidationException)
    else Success(Params(lat.value, lon.value, alt.value, handler.value))
  }

  /** The filled-in SVG document of `get_svg`, from the template's contents. */
  function Svg(template: string, w: Snapshot): string
  {
    Text.SubstituteAll(template, Variables(w))
  }

  /** A template that holds none of the placeholders is sent as it is. */
  lemma SvgWithoutPlaceholders(template: string, w: Snapshot)
    requires forall k, t: nat :: 0 <= k < |PLACEHOLDERS| ==> !Text.OccursAt(template, PLACEHOLDERS[k], t)
    ensures Svg(template, w) == template
  {
    var vars := Variables(w);
    assert forall k :: 0 <= k < |vars| ==> |vars[k].0| > 0 by {
      forall k | 0 <= k < |vars| ensures |vars[k].0| > 0 {
        assert vars[k].0 == PLACEHOLDERS[k];
      }
    }
    Text.SubstituteNoKeys(template, vars);
  }

  /**
   * `send_svg`, `send_png` and `send_eink` up to the point where they send: the content
   * type and body, or the exception that escapes.  `get_svg` reads the template before it
   * extracts the variables; every step after it can raise.
   */
  function Render(env: Env, format: Format, data: string): (r: Result<(string, seq<byte>), Exception>)
    ensures r.Failure? ==> r.error == OtherException
    ensures r.Success? <==>
              env.template.Some? && env.extract(data).Some? &&
              var svg := Svg(env.template.value, env.extract(data).value);
              (format != SvgFormat ==> env.toPng(svg).Some?) &&
              (format == EinkFormat ==> env.alpha(env.toPng(svg).value).Some?)
    ensures r.Success? ==> r.value.0 == ContentType(format)
    ensures r.Success? ==>
              var svg := Svg(env.template.value, env.extract(data).value);
              match format
              case SvgFormat => r.value.1 == env.utf8(svg)
              case PngFormat => env.toPng(svg) == Some(r.value.1)
              case EinkFormat => r.value.1 == Eink.EinkBody(env.alpha(env.toPng(svg).value).value)
  {
    match env.template
    case None => Failure(OtherException)
    case Some(template) =>
    match env.extract(data)
    case None => Failure(OtherException)
    case Some(w) =>
      var svg := Svg(template, w);
      match format
      case SvgFormat => Success((ContentType(SvgFormat), env.utf8(svg)))
      case PngFormat =>
        (match env.toPng(svg)
         case None => Failure(OtherException)
         case Some(png) => Success((ContentType(PngFormat), png)))
      case EinkFormat =>
        (match env.toPng(svg)
         case None => Failure(OtherException)
         case Some(png) =>
           match env.alpha(png)
           case None => Failure(OtherException)
           case Some(pixels) => Success((ContentType(EinkFormat), Eink.EinkBody(pixels))))
  }

  /** `weather`: parse, fetch, render; the first exception ends the request. */
  function Weather(env: Env, query: map<string, string>): (r: Result<(string, seq<byte>), Exception>)
    ensures r.Failure? && r.error == InputValidationException <==> ParseParams(env, query).Failure?
  {
    match ParseParams(env, query)
    case Failure(e) => Failure(e)
    case Success(p) =>
      match env.fetch(p.lat, p.lon, p.alt)
      case None => Failure(FetchException)
      case Some(data) => Render(env, p.format, data)
  }

  /** What the client receives: a status, a content type for a 200, and the body. */
  datatype Response = Response(status: nat, contentType: Option<string>, body: seq<byte>)

  /** The request target as `urlparse` splits it: the path, and the query as a dictionary. */
  datatype Url = Url(path: string, query: map<string, string>)

  /**
   * `do_GET` on the parsed request target, or None where `urlparse` raises.  A status line
   * is written only once the outcome is known, so a failed request carries no body.
   */
  function DoGet(env: Env, url: Option<Url>): (r: Response)
    ensures r.status in {200, 400, 404, 500}
    ensures r.status == 404 <==> url.Some? && url.value.path != WEATHER_PATH
    ensures r.status == 400 <==>
              url.Some? && url.value.path == WEATHER_PATH && ParseParams(env, url.value.query).Failure?
    ensures r.status == 500 <==>
              url.None? ||
              (url.value.path == WEATHER_PATH && ParseParams(env, url.value.query).Success? &&
               var p := ParseParams(env, url.value.query).value;
               (env.fetch(p.lat, p.lon, p.alt).None? ||
                Render(env, p.format, env.fetch(p.lat, p.lon, p.alt).value).Failure?))
    ensures r.status == 200 <==> r.contentType.Some?
    ensures r.status != 200 ==> r.body == []
    ensures r.status == 200 ==>
              r.contentType == Some(ContentType(ParseParams(env, url.value.query).value.format))
  {
    match url
    case None => Response(500, None, [])
    case Some(u) =>
      if u.path != WEATHER_PATH then Response(404, None, [])
      else
        match Weather(env, u.query)
        case Success((contentType, body)) => Response(200, Some(contentType), body)
        case Failure(InputValidationException) => Response(400, None, [])
        case Failure(_) => Response(500, None, [])
  }

  /** The forecast that a valid request for `format` renders: fetched and extracted as `w`. */
  predicate Fetched(env: Env, query: map<string, string>, format: Format, w: Snapshot)
  {
    ParseParams(env, query).Success? && ParseParams(env, query).value.format == format &&
    var p := ParseParams(env, query).value;
    env.fetch(p.lat, p.lon, p.alt).Some? && env.extract(env.fetch(p.lat, p.lon, p.alt).value) == Some(w)
  }

  /** A successful svg request returns the filled-in template, encoded. */
  lemma SvgResponse(env: Env, query: map<string, string>, template: string, w: Snapshot)
    requires Fetched(env, query, SvgFormat, w) && env.template == Some(template)
    ensures var r := DoGet(env, Some(Url(WEATHER_PATH, query)));
            r.status == 200 && r.contentType == Some("image/svg+xml") &&
            r.body == env.utf8(Svg(template, w))
  {
  }

  /** A png request succeeds exactly when the rasterizer does, and returns its image. */
  lemma PngResponse(env: Env, query: map<string, string>, template: string, w: Snapshot)
    requires Fetched(env, query, PngFormat, w) && env.template == Some(template)
    ensures var r := DoGet(env, Some(Url(WEATHER_PATH, query)));
            (r.status == 200 <==> env.toPng(Svg(template, w)).Some?) &&
            (r.status == 200 ==> r.contentType == Some("image/png") && env.toPng(Svg(template, w)) == Some(r.body)) &&
            (r.status != 200 ==> r.status == 500)
  {
  }

  /**
   * A successful eink request returns the two planes of the rendered image: the body has
   * 2 * (n / 8) bytes for n pixels, and reading it back gives the classification of the
   * first 8 * (n / 8) alpha samples.
   */
  lemma EinkResponse(env: Env, query: map<string, string>, template: string, w: Snapshot, png: seq<byte>, pixels: seq<int>)
    requires Fetched(env, query, EinkFormat, w) && env.template == Some(template)
    requires env.toPng(Svg(template, w)) == Some(png) && env.alpha(png) == Some(pixels)
    ensures var r := DoGet(env, Some(Url(WEATHER_PATH, query)));
            r.status == 200 && r.contentType == Some("application/octet-stream") &&
            |r.body| == 2 * (|pixels| / 8) &&
            Decode(r.body) == Eink.Classified(pixels[..8 * (|pixels| / 8)])
  {
    Eink.EinkRoundTrip(pixels);
  }
}
