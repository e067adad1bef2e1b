/** What the two servers share: the one-connection exchange, the fixed response framing
    and the two OLED lines that show the reading, with a lemma placing their parts. */
module Http {
  import opened PyStr

  /** The status line and the single header both servers send before the page. */
  const Header := "HTTP/1.1 200 OK\nContent-Type: text/html\n\n"

  /** One accepted connection: the decoded request text and the DHT11 reading
      (temperature in degrees Celsius, relative humidity in percent) taken while serving it. */
  datatype Exchange = Exchange(request: string, temp: int, hum: int)

  /** The request texts of a run of connections, in arrival order. */
  function Requests(xs: seq<Exchange>): (rs: seq<string>)
    ensures |rs| == |xs|
    ensures forall i :: 0 <= i < |xs| ==> rs[i] == xs[i].request
  {
    seq(|xs|, i requires 0 <= i < |xs| => xs[i].request)
  }

  /** The text sent on the connection: the fixed header, then the page unchanged. */
  function Respond(page: string): string
  {
    Header + page
  }

  /** The response is the header, then the page unchanged. */
  lemma RespondFraming(page: string)
    ensures |Respond(page)| == |Header| + |page|
    ensures Respond(page)[..|Header|] == Header
    ensures Respond(page)[|Header|..] == page
  {
  }

  /** The requests of one more connection are the earlier ones plus its request. */
  lemma RequestsSnoc(xs: seq<Exchange>, i: nat)
    requires i < |xs|
    ensures Requests(xs[..i + 1]) == Requests(xs[..i]) + [xs[i].request]
  {
  }

  /** Framing moves every piece of the page right by the header's length. */
  lemma RespondKeeps(page: string, s: string, k: int)
    requires OccursAt(page, s, k)
    ensures OccursAt(Respond(page), s, |Header| + k)
  {
    assert Respond(page)[|Header| + k..|Header| + k + |s|] == page[k..k + |s|];
  }

  /** A template with three holes: each filled value sits right after the text before it. */
  lemma Spliced(a: string, x: string, b: string, y: string, c: string, z: string, d: string)
    ensures var s := a + x + b + y + c + z + d;
            |s| == |a| + |x| + |b| + |y| + |c| + |z| + |d| &&
            OccursAt(s, x, |a|) &&
            OccursAt(s, y, |a| + |x| + |b|) &&
            OccursAt(s, z, |a| + |x| + |b| + |y| + |c|)
  {
    var s := a + x + b + y + c + z + d;
    assert s[|a|..|a| + |x|] == x;
    assert s[|a| + |x| + |b|..|a| + |x| + |b| + |y|] == y;
    assert s[|a| + |x| + |b| + |y| + |c|..|a| + |x| + |b| + |y| + |c| + |z|] == z;
  }

  /** The fixed text of the same template: each piece sits right after the value before it. */
  lemma SplicedText(a: string, x: string, b: string, y: string, c: string, z: string)
    ensures var s := a + x + b + y + c + z;
            OccursAt(s, a, 0) &&
            OccursAt(s, b, |a| + |x|) &&
            OccursAt(s, c, |a| + |x| + |b| + |y|)
  {
    var s := a + x + b + y + c + z;
    assert s[..|a|] == a;
    assert s[|a| + |x|..|a| + |x| + |b|] == b;
    assert s[|a| + |x| + |b| + |y|..|a| + |x| + |b| + |y| + |c|] == c;
  }

  /** The OLED's first line: the temperature after its label, in degrees Celsius. */
  function TempLine(temp: int): string
  {
    "Temp: " + Str(temp) + " C"
  }

  /** The OLED's second line: the relative humidity after its label, in percent. */
  function HumLine(hum: int): string
  {
    "Humidity: " + Str(hum) + "%"
  }

  /** `tag + value + unit` shows each of the three at its own offset. */
  lemma Labelled(tag: string, value: string, unit: string)
    ensures OccursAt(tag + value + unit, tag, 0)
    ensures OccursAt(tag + value + unit, value, |tag|)
    ensures OccursAt(tag + value + unit, unit, |tag| + |value|)
  {
    var s := tag + value + unit;
    assert s[..|tag|] == tag;
    assert s[|tag|..|tag| + |value|] == value;
    assert s[|tag| + |value|..] == unit;
  }

  /** Each reading line is its label, then the reading, then its unit, and nothing more. */
  lemma ReadingLines(temp: int, hum: int)
    ensures |TempLine(temp)| == |"Temp: "| + |Str(temp)| + |" C"|
    ensures OccursAt(TempLine(temp), "Temp: ", 0)
    ensures OccursAt(TempLine(temp), Str(temp), |"Temp: "|)
    ensures OccursAt(TempLine(temp), " C", |"Temp: "| + |Str(temp)|)
    ensures |HumLine(hum)| == |"Humidity: "| + |Str(hum)| + |"%"|
    ensures OccursAt(HumLine(hum), "Humidity: ", 0)
    ensures OccursAt(HumLine(hum), Str(hum), |"Humidity: "|)
    ensures OccursAt(HumLine(hum), "%", |"Humidity: "| + |Str(hum)|)
  {
    Labelled("Temp: ", Str(temp), " C");
    Labelled("Humidity: ", Str(hum), "%");
  }
}
