/** The access-point server that sets the board's RGB LED from a query string
    (IOT_PROJECT/Apmain.py). Each connection runs one request step: reset the
    per-request colour to (0, 0, 0), parse `GET /?r=..&g=..&b=..` positionally,
    write the LED only when all three values convert, redraw the OLED from the
    per-request values and answer with a page that shows the sensor reading. */
module Apmain {
  import opened PyStr
  import opened Http

  /** One NeoPixel colour, as the `(r, g, b)` tuple handed to the NeoPixel driver. */
  datatype Color = Color(r: int, g: int, b: int)

  /** The substring whose presence makes the handler try to parse a colour. */
  const QueryMarker := "GET /?"

  /** What one request step made of a request. Distinguishes "no command" from
      "command present but malformed", which the source merges in a bare `except`. */
  datatype Parsed =
    | NoQuery                 // the marker is absent: the try block is never entered
    | Aborted(partial: Color) // an IndexError or ValueError was caught; `partial` holds what was assigned before it
    | Complete(color: Color)  // all three values converted and the LED was written

  /** The per-request locals `r, g, b` after the step. */
  function Locals(p: Parsed): Color
  {
    match p
    case NoQuery => Color(0, 0, 0)
    case Aborted(c) => c
    case Complete(c) => c
  }

  /** `request.split(" ")[1].split("?")[1].split("&")`; `None` is the IndexError
      raised when a split yields fewer than two pieces. */
  function QueryPieces(request: string): Option<seq<string>>
  {
    var words := Split(request, ' ');
    if |words| < 2 then None
    else
      var parts := Split(words[1], '?');
      if |parts| < 2 then None
      else Some(Split(parts[1], '&'))
  }

  /** `int(piece.split("=")[1])`; the key before `=` is never looked at. */
  function PieceValue(piece: string): Option<int>
  {
    var kv := Split(piece, '=');
    if |kv| < 2 then None else ParseInt(kv[1])
  }

  /** `int(params[i].split("=")[1])`, with an index past the end as IndexError. */
  function Field(params: seq<string>, i: nat): Option<int>
  {
    if i < |params| then PieceValue(params[i]) else None
  }

  /** The three assignments of the try block, run in order on the query pieces:
      the first IndexError or ValueError abandons the rest and keeps earlier ones. */
  function Assign(params: seq<string>): (p: Parsed)
    ensures !p.NoQuery?
    ensures p.Aborted? ==> p.partial.b == 0
    ensures p.Complete? ==> |params| >= 3
  {
    match Field(params, 0)
    case None => Aborted(Color(0, 0, 0))
    case Some(r) =>
      match Field(params, 1)
      case None => Aborted(Color(r, 0, 0))
      case Some(g) =>
        match Field(params, 2)
        case None => Aborted(Color(r, g, 0))
        case Some(b) => Complete(Color(r, g, b))
  }

  /** The request step of the main loop: nothing happens without the marker; a request
      line that cannot be cut into pieces aborts before any assignment. */
  function ParseRequest(request: string): (p: Parsed)
    ensures p.NoQuery? <==> !Contains(request, QueryMarker)
    ensures p.Aborted? ==> p.partial.b == 0
    ensures p.Complete? ==> QueryPieces(request).Some? && |QueryPieces(request).value| >= 3
  {
    if !Contains(request, QueryMarker) then NoQuery
    else match QueryPieces(request)
      case None => Aborted(Color(0, 0, 0))
      case Some(params) => Assign(params)
  }

  /** The colour held in `rgb_led[0]` after one request, given the colour before it. */
  function LedAfterRequest(led: Color, request: string): Color
  {
    match ParseRequest(request)
    case Complete(c) => c
    case _ => led
  }

  /** The colour held in `rgb_led[0]` after serving the requests in order. */
  function LedAfter(led: Color, requests: seq<string>): Color
    decreases |requests|
  {
    if requests == [] then led else LedAfter(LedAfterRequest(led, requests[0]), requests[1..])
  }

  /** The colour of the last request that set one, scanning from the newest. */
  function LastSet(requests: seq<string>): Option<Color>
    decreases |requests|
  {
    if requests == [] then None
    else match ParseRequest(requests[|requests| - 1])
      case Complete(c) => Some(c)
      case _ => LastSet(requests[..|requests| - 1])
  }

  /** One more request is one more step on top of the earlier ones. */
  lemma {:induction false} LedAfterSnoc(led: Color, requests: seq<string>, request: string)
    ensures LedAfter(led, requests + [request]) == LedAfterRequest(LedAfter(led, requests), request)
    decreases |requests|
  {
    if requests != [] {
      assert (requests + [request])[1..] == requests[1..] + [request];
      LedAfterSnoc(LedAfterRequest(led, requests[0]), requests[1..], request);
    }
  }

  /** The LED shows the colour of the last complete command, or its old colour if there was none. */
  lemma {:induction false} LedAfterIsLastSet(led: Color, requests: seq<string>)
    ensures LedAfter(led, requests) == match LastSet(requests) case Some(c) => c case None => led
    decreases |requests|
  {
    if requests != [] {
      var n := |requests| - 1;
      assert requests[..n] + [requests[n]] == requests;
      LedAfterSnoc(led, requests[..n], requests[n]);
      LedAfterIsLastSet(led, requests[..n]);
    }
  }

  /** A query piece as it appears between `?` and the space before the HTTP version. */
  predicate QueryPiece(piece: string)
  {
    ' ' !in piece && '?' !in piece && '&' !in piece
  }

  /** `request.split(" ")[1]` of `GET <path> <tail>` is the path, when the path has no space. */
  lemma SecondWord(path: string, tail: string)
    requires ' ' !in path
    ensures |Split("GET " + path + " " + tail, ' ')| >= 2
    ensures Split("GET " + path + " " + tail, ' ')[1] == path
  {
    var rest := path + [' '] + tail;
    assert "GET " + path + " " + tail == "GET" + [' '] + rest;
    SplitAtFirst("GET", ' ', rest);
    SplitAtFirst(path, ' ', tail);
  }

  /** `path.split("?")[1]` of `/?<query>` is the query, when the query has no `?`. */
  lemma QueryOfPath(query: string)
    requires '?' !in query
    ensures Split("/?" + query, '?') == ["/", query]
  {
    assert "/?" + query == "/" + ['?'] + query;
    SplitAtFirst("/", '?', query);
    SplitWithoutSep(query, '?');
  }

  /** The three splits of a request line `GET /?<pieces joined by &> <tail>`. */
  lemma RequestLineSplits(pieces: seq<string>, tail: string)
    requires |pieces| >= 1
    requires forall i :: 0 <= i < |pieces| ==> QueryPiece(pieces[i])
    ensures var request := QueryMarker + Join(pieces, '&') + " " + tail;
            var path := "/?" + Join(pieces, '&');
            |Split(request, ' ')| >= 2 && Split(request, ' ')[1] == path &&
            Split(path, '?') == ["/", Join(pieces, '&')] &&
            Split(Join(pieces, '&'), '&') == pieces
  {
    var query := Join(pieces, '&');
    var path := "/?" + query;
    var request := QueryMarker + query + " " + tail;
    assert request == ("GET " + path) + " " + tail by {
      assert QueryMarker + query == "GET " + path;
    }
    NotInJoin(pieces, '&', ' ');
    NotInJoin(pieces, '&', '?');
    assert ' ' !in path;
    SecondWord(path, tail);
    QueryOfPath(query);
    SplitJoin(pieces, '&');
  }

  lemma QueryPiecesFromSplits(request: string, path: string, query: string, pieces: seq<string>)
    requires |Split(request, ' ')| >= 2 && Split(request, ' ')[1] == path
    requires Split(path, '?') == ["/", query]
    requires Split(query, '&') == pieces
    ensures QueryPieces(request) == Some(pieces)
  {
  }

  /** The request line `GET /?<pieces joined by &> <tail>` carries the marker and is cut back into its pieces. */
  lemma QueryPiecesOf(pieces: seq<string>, tail: string)
    requires |pieces| >= 1
    requires forall i :: 0 <= i < |pieces| ==> QueryPiece(pieces[i])
    ensures Contains(QueryMarker + Join(pieces, '&') + " " + tail, QueryMarker)
    ensures QueryPieces(QueryMarker + Join(pieces, '&') + " " + tail) == Some(pieces)
  {
    var query := Join(pieces, '&');
    RequestLineSplits(pieces, tail);
    QueryPiecesFromSplits(QueryMarker + query + " " + tail, "/?" + query, query, pieces);
    MarkerAtStart(query, tail);
  }

  lemma MarkerAtStart(query: string, tail: string)
    ensures Contains(QueryMarker + query + " " + tail, QueryMarker)
  {
    assert OccursAt(QueryMarker + query + " " + tail, QueryMarker, 0);
  }

  /** A piece `key=<str(v)>` converts to `v` whatever the key says. */
  lemma PieceValueOf(key: string, v: int)
    requires '=' !in key
    ensures PieceValue(key + "=" + Str(v)) == Some(v)
  {
    var s := Str(v);
    assert '=' !in s;
    SplitAtFirst(key, '=', s);
    assert key + "=" + s == key + ['='] + s;
    SplitWithoutSep(s, '=');
    StrRoundTrip(v);
  }

  /** A piece without `=` fails at `split("=")[1]`. */
  lemma PieceWithoutEquals(piece: string)
    requires '=' !in piece
    ensures PieceValue(piece) == None
  {
    SplitWithoutSep(piece, '=');
  }

  /** Extraction is positional: the first three pieces give r, g and b in that order
      whatever their keys, and any further pieces are ignored. */
  lemma PositionalQuery(pieces: seq<string>, tail: string, r: int, g: int, b: int)
    requires |pieces| >= 3
    requires forall i :: 0 <= i < |pieces| ==> QueryPiece(pieces[i])
    requires PieceValue(pieces[0]) == Some(r)
    requires PieceValue(pieces[1]) == Some(g)
    requires PieceValue(pieces[2]) == Some(b)
    ensures ParseRequest(QueryMarker + Join(pieces, '&') + " " + tail) == Complete(Color(r, g, b))
  {
    QueryPiecesOf(pieces, tail);
  }

  /** When piece `k` (one of the first three) is missing or does not convert, the values
      before it stay assigned, the later ones stay 0, and the LED is not written. */
  lemma FailedAssignment(pieces: seq<string>, values: seq<int>)
    requires |values| < 3
    requires forall i :: 0 <= i < |values| ==> i < |pieces| && PieceValue(pieces[i]) == Some(values[i])
    requires |values| >= |pieces| || PieceValue(pieces[|values|]) == None
    ensures Assign(pieces)
         == Aborted(Color(if |values| > 0 then values[0] else 0, if |values| > 1 then values[1] else 0, 0))
  {
    if |values| == 0 {
      assert Field(pieces, 0) == None;
    } else if |values| == 1 {
      assert Field(pieces, 0) == Some(values[0]);
      assert Field(pieces, 1) == None;
    } else {
      assert Field(pieces, 0) == Some(values[0]);
      assert Field(pieces, 1) == Some(values[1]);
      assert Field(pieces, 2) == None;
    }
  }

  /** The same failure seen from the whole request line `GET /?<pieces> <tail>`. */
  lemma FailedField(pieces: seq<string>, tail: string, values: seq<int>)
    requires |values| < 3 && |pieces| >= 1
    requires forall i :: 0 <= i < |pieces| ==> QueryPiece(pieces[i])
    requires forall i :: 0 <= i < |values| ==> i < |pieces| && PieceValue(pieces[i]) == Some(values[i])
    requires |values| >= |pieces| || PieceValue(pieces[|values|]) == None
    ensures ParseRequest(QueryMarker + Join(pieces, '&') + " " + tail)
         == Aborted(Color(if |values| > 0 then values[0] else 0, if |values| > 1 then values[1] else 0, 0))
  {
    QueryPiecesOf(pieces, tail);
    FailedAssignment(pieces, values);
  }

  /** The request a browser sends for the form: `GET /?r=R&g=G&b=B HTTP/1.1`. */
  function ColorRequest(r: int, g: int, b: int): string
  {
    QueryMarker + "r=" + Str(r) + "&g=" + Str(g) + "&b=" + Str(b) + " HTTP/1.1"
  }

  /** A piece `k=<str(v)>` with a one-letter key is a well-formed query piece worth `v`. */
  lemma FormPiece(key: char, v: int)
    requires key != ' ' && key != '?' && key != '&' && key != '='
    ensures QueryPiece([key] + "=" + Str(v))
    ensures PieceValue([key] + "=" + Str(v)) == Some(v)
  {
    PieceValueOf([key], v);
    StrLacks(v, ' ');
    StrLacks(v, '?');
    StrLacks(v, '&');
  }

  /** The query pieces of the form's request. */
  function FormPieces(r: int, g: int, b: int): seq<string>
  {
    [['r'] + "=" + Str(r), ['g'] + "=" + Str(g), ['b'] + "=" + Str(b)]
  }

  /** The form's request line, written with its three values left abstract. */
  lemma FormLine(x: string, y: string, z: string)
    ensures QueryMarker + "r=" + x + "&g=" + y + "&b=" + z + " HTTP/1.1"
         == QueryMarker + Join([['r'] + "=" + x, ['g'] + "=" + y, ['b'] + "=" + z], '&') + " " + "HTTP/1.1"
  {
    JoinThree(['r'] + "=" + x, ['g'] + "=" + y, ['b'] + "=" + z, '&');
  }

  /** The form's request is a request line over its three pieces. */
  lemma ColorRequestLine(r: int, g: int, b: int)
    ensures ColorRequest(r, g, b) == QueryMarker + Join(FormPieces(r, g, b), '&') + " " + "HTTP/1.1"
  {
    FormLine(Str(r), Str(g), Str(b));
  }

  /** A request line over three well-formed pieces worth `r`, `g` and `b` sets that colour. */
  lemma ThreePieces(p0: string, p1: string, p2: string, tail: string, r: int, g: int, b: int)
    requires QueryPiece(p0) && QueryPiece(p1) && QueryPiece(p2)
    requires PieceValue(p0) == Some(r) && PieceValue(p1) == Some(g) && PieceValue(p2) == Some(b)
    ensures ParseRequest(QueryMarker + Join([p0, p1, p2], '&') + " " + tail) == Complete(Color(r, g, b))
  {
    var pieces := [p0, p1, p2];
    assert forall i :: 0 <= i < |pieces| ==> QueryPiece(pieces[i]) by {
      forall i | 0 <= i < |pieces|
        ensures QueryPiece(pieces[i])
      {
        if i == 0 { assert pieces[i] == p0; }
        else if i == 1 { assert pieces[i] == p1; }
        else { assert pieces[i] == p2; }
      }
    }
    PositionalQuery(pieces, tail, r, g, b);
  }

  /** The form's request sets exactly the values typed, with no clamping to 0..255. */
  lemma ColorRequestSets(r: int, g: int, b: int)
    ensures ParseRequest(ColorRequest(r, g, b)) == Complete(Color(r, g, b))
    ensures Locals(ParseRequest(ColorRequest(r, g, b))) == Color(r, g, b)
    ensures forall led :: LedAfterRequest(led, ColorRequest(r, g, b)) == Color(r, g, b)
  {
    FormPiece('r', r);
    FormPiece('g', g);
    FormPiece('b', b);
    ColorRequestLine(r, g, b);
    ThreePieces(['r'] + "=" + Str(r), ['g'] + "=" + Str(g), ['b'] + "=" + Str(b), "HTTP/1.1", r, g, b);
  }

  /** A colour, once set, stays on the LED through a following request without a command,
      while that request's own locals are back to (0, 0, 0). */
  lemma ColorIsSticky(led: Color, command: string, plain: string)
    requires ParseRequest(command).Complete?
    requires !Contains(plain, QueryMarker)
    ensures LedAfter(led, [command, plain]) == ParseRequest(command).color
    ensures Locals(ParseRequest(plain)) == Color(0, 0, 0)
  {
    var c := ParseRequest(command).color;
    assert LedAfterRequest(led, command) == c;
    assert LedAfterRequest(c, plain) == c;
    assert [command, plain][1..] == [plain] && [plain][1..] == [];
    assert LedAfter(c, [plain]) == LedAfter(c, []);
  }

  /** Setting (r, g, b) through the form and then loading the plain page leaves (r, g, b) on the LED. */
  lemma FormColorIsSticky(led: Color, r: int, g: int, b: int, plain: string)
    requires !Contains(plain, QueryMarker)
    ensures LedAfter(led, [ColorRequest(r, g, b), plain]) == Color(r, g, b)
  {
    ColorRequestSets(r, g, b);
    ColorIsSticky(led, ColorRequest(r, g, b), plain);
  }

  /** The OLED colour line, built from the per-request locals. */
  function RgbLine(r: int, g: int, b: int): (line: string)
    ensures |line| == |"RGB: R"| + |Str(r)| + |" G"| + |Str(g)| + |" B"| + |Str(b)|
    ensures OccursAt(line, Str(r), |"RGB: R"|)
    ensures OccursAt(line, Str(g), |"RGB: R"| + |Str(r)| + |" G"|)
    ensures OccursAt(line, Str(b), |"RGB: R"| + |Str(r)| + |" G"| + |Str(g)| + |" B"|)
    ensures OccursAt(line, "RGB: R", 0)
    ensures OccursAt(line, " G", |"RGB: R"| + |Str(r)|)
    ensures OccursAt(line, " B", |"RGB: R"| + |Str(r)| + |" G"| + |Str(g)|)
  {
    Spliced("RGB: R", Str(r), " G", Str(g), " B", Str(b), "");
    SplicedText("RGB: R", Str(r), " G", Str(g), " B", Str(b));
    assert "RGB: R" + Str(r) + " G" + Str(g) + " B" + Str(b) + "" == "RGB: R" + Str(r) + " G" + Str(g) + " B" + Str(b);
    "RGB: R" + Str(r) + " G" + Str(g) + " B" + Str(b) + ""
  }

  /** The three text lines `update_oled` draws (at y = 0, 10 and 30). */
  function OledLines(temp: int, hum: int, r: int, g: int, b: int): (lines: seq<string>)
    ensures |lines| == 3
    ensures lines[0] == TempLine(temp) && lines[1] == HumLine(hum)
    ensures OccursAt(lines[0], "Temp: ", 0) && OccursAt(lines[0], Str(temp), |"Temp: "|)
    ensures OccursAt(lines[1], "Humidity: ", 0) && OccursAt(lines[1], Str(hum), |"Humidity: "|)
    ensures lines[2] == RgbLine(r, g, b)
  {
    ReadingLines(temp, hum);
    [TempLine(temp), HumLine(hum), RgbLine(r, g, b)]
  }

  /** A request without a command leaves the LED as it was and shows `R0 G0 B0` on the OLED,
      whatever colour the LED holds. */
  lemma PlainRequestShowsZero(led: Color, request: string, temp: int, hum: int)
    requires !Contains(request, QueryMarker)
    ensures LedAfterRequest(led, request) == led
    ensures var c := Locals(ParseRequest(request));
            OledLines(temp, hum, c.r, c.g, c.b)[2] == "RGB: R0 G0 B0"
  {
    assert ParseRequest(request) == NoQuery;
    assert Str(0) == "0";
    assert RgbLine(0, 0, 0) == "RGB: R0 G0 B0";
  }

  /** The page text before the temperature: the document head, the style sheet and the
      opening of the body, which are not modelled, stand as an ellipsis. */
  const PagePrefix := "<!DOCTYPE html>...<h1>ESP32 RGB LED & Sensor Web Server</h1><div class=\"card\"><h2> Temperature: "
  /** The page text between the temperature and the humidity. */
  const PageMiddle := "Â°C</h2><h2> Humidity: "
  /** The page text after the humidity: the colour form (elided) and the closing tags. */
  const PageSuffix := "%</h2>...</html>"

  /** `generate_webpage(temp, hum)`; the colour is not an argument, so the page never depends on it. */
  function Page(temp: int, hum: int): string
  {
    PagePrefix + Str(temp) + PageMiddle + Str(hum) + PageSuffix
  }

  /** Both readings appear at their interpolation points. */
  lemma PageLayout(temp: int, hum: int)
    ensures |Page(temp, hum)| == |PagePrefix| + |Str(temp)| + |PageMiddle| + |Str(hum)| + |PageSuffix|
    ensures OccursAt(Page(temp, hum), Str(temp), |PagePrefix|)
    ensures OccursAt(Page(temp, hum), Str(hum), |PagePrefix| + |Str(temp)| + |PageMiddle|)
  {
    Spliced(PagePrefix, Str(temp), PageMiddle, Str(hum), PageSuffix, "", "");
  }

  /** Every response starts with the fixed header and shows both readings. */
  lemma ResponseShowsReadings(temp: int, hum: int)
    ensures Respond(Page(temp, hum))[..|Header|] == Header
    ensures OccursAt(Respond(Page(temp, hum)), Str(temp), |Header| + |PagePrefix|)
    ensures OccursAt(Respond(Page(temp, hum)), Str(hum), |Header| + |PagePrefix| + |Str(temp)| + |PageMiddle|)
  {
    var page := Page(temp, hum);
    PageLayout(temp, hum);
    RespondKeeps(page, Str(temp), |PagePrefix|);
    RespondKeeps(page, Str(hum), |PagePrefix| + |Str(temp)| + |PageMiddle|);
  }

  /** The response sent for one connection. */
  function Reply(x: Exchange): string
  {
    Respond(Page(x.temp, x.hum))
  }

  /** The responses sent for a run of connections, one per connection. */
  function Replies(xs: seq<Exchange>): (rs: seq<string>)
    ensures |rs| == |xs|
    ensures forall i :: 0 <= i < |xs| ==> rs[i] == Reply(xs[i])
  {
    seq(|xs|, i requires 0 <= i < |xs| => Reply(xs[i]))
  }

  lemma RepliesSnoc(xs: seq<Exchange>, i: nat)
    requires i < |xs|
    ensures Replies(xs[..i + 1]) == Replies(xs[..i]) + [Reply(xs[i])]
  {
  }

  /** The board's state that outlives a connection: the colour last handed to the NeoPixel driver and the OLED. */
  class Board {
    /** `rgb_led`: one entry per LED, each the `(r, g, b)` tuple handed to the NeoPixel driver. */
    var led: array<Color>
    /** The text lines last drawn on the OLED. */
    var display: seq<string>

    ghost predicate Valid()
      reads this
    {
      led.Length == 1
    }

    /** `NeoPixel(rgb_pin, 1)` starts with its single pixel off. */
    constructor ()
      ensures Valid() && fresh(led)
      ensures led[0] == Color(0, 0, 0) && display == []
    {
      led := new Color[1](_ => Color(0, 0, 0));
      display := [];
    }

    /** `set_rgb_color`: hands the `(r, g, b)` tuple to the NeoPixel driver for pixel 0 and touches no other pixel. */
    method SetRgbColor(r: int, g: int, b: int)
      requires led.Length >= 1
      modifies led
      ensures led[0] == Color(r, g, b)
      ensures forall i :: 1 <= i < led.Length ==> led[i] == old(led[i])
    {
      led[0] := Color(r, g, b);
    }

    /** `update_oled`: clears the screen and draws the three lines. */
    method UpdateOled(temp: int, hum: int, r: int, g: int, b: int)
      modifies this`display
      ensures display == OledLines(temp, hum, r, g, b)
    {
      display := OledLines(temp, hum, r, g, b);
    }

    /** One pass of the main loop for an already received request and reading.
        Returns the per-request locals and the text sent back. */
    method HandleRequest(request: string, temp: int, hum: int) returns (r: int, g: int, b: int, response: string)
      requires Valid()
      modifies this`display, led
      ensures Valid()
      ensures Color(r, g, b) == Locals(ParseRequest(request))
      ensures led[0] == LedAfterRequest(old(led[0]), request)
      ensures display == OledLines(temp, hum, r, g, b)
      ensures response == Respond(Page(temp, hum))
    {
      r, g, b := 0, 0, 0;
      if Contains(request, QueryMarker) {
        var params := QueryPieces(request);
        if params.Some? {
          var v := Field(params.value, 0);
          if v.Some? {
            r := v.value;
            v := Field(params.value, 1);
            if v.Some? {
              g := v.value;
              v := Field(params.value, 2);
              if v.Some? {
                b := v.value;
                SetRgbColor(r, g, b);
              }
            }
          }
        }
      }
      UpdateOled(temp, hum, r, g, b);
      response := Respond(Page(temp, hum));
    }

    /** The `while True` loop run over a finite sequence of connections. */
    method Serve(exchanges: seq<Exchange>) returns (responses: seq<string>)
      requires Valid()
      modifies this`display, led
      ensures Valid()
      ensures led[0] == LedAfter(old(led[0]), Requests(exchanges))
      ensures responses == Replies(exchanges)
      ensures exchanges != [] ==>
                var x := exchanges[|exchanges| - 1];
                var c := Locals(ParseRequest(x.request));
                display == OledLines(x.temp, x.hum, c.r, c.g, c.b)
      ensures exchanges == [] ==> display == old(display)
    {
      responses := [];
      var i := 0;
      while i < |exchanges|
        invariant 0 <= i <= |exchanges| && Valid()
        invariant led[0] == LedAfter(old(led[0]), Requests(exchanges[..i]))
        invariant responses == Replies(exchanges[..i])
        invariant i > 0 ==>
                    var c := Locals(ParseRequest(exchanges[i - 1].request));
                    display == OledLines(exchanges[i - 1].temp, exchanges[i - 1].hum, c.r, c.g, c.b)
        invariant i == 0 ==> display == old(display)
      {
        var x := exchanges[i];
        var r, g, b, response := HandleRequest(x.request, x.temp, x.hum);
        LedAfterSnoc(old(led[0]), Requests(exchanges[..i]), x.request);
        RequestsSnoc(exchanges, i);
        RepliesSnoc(exchanges, i);
        responses := responses + [response];
        i := i + 1;
      }
      assert exchanges[..i] == exchanges;
    }
  }
}
