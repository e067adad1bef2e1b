/** The station-mode buzzer alarm server (IOT_PROJECT/developer.py). A process-wide
    flag is switched on or off by substring tests on each request; on every request the
    buzzer is then driven from the flag and the DHT11 reading, the OLED shows the
    reading and the alarm state, and the page shows the same. The statement
    `global alarm_active` at developer.py:147 stands at module level after the
    assignment at developer.py:34, which Python's compiler rejects; this module
    describes the program with that statement removed. */
module Developer {
  import opened PyStr
  import opened Http

  /** The request text that switches the alarm on. */
  const AlarmOn := "GET /?alarm=on"
  /** The request text that switches the alarm off. */
  const AlarmOff := "GET /?alarm=off"

  /** The flag after one request: `on` is tested first, then `off`, otherwise the flag is kept. */
  function NextAlarm(active: bool, request: string): (next: bool)
    ensures Contains(request, AlarmOn) ==> next
    ensures !Contains(request, AlarmOn) && Contains(request, AlarmOff) ==> !next
    ensures !Contains(request, AlarmOn) && !Contains(request, AlarmOff) ==> next == active
  {
    if Contains(request, AlarmOn) then true
    else if Contains(request, AlarmOff) then false
    else active
  }

  /** The flag after serving the requests in order, starting from `active`. */
  function AlarmAfter(active: bool, requests: seq<string>): bool
    decreases |requests|
  {
    if requests == [] then active else AlarmAfter(NextAlarm(active, requests[0]), requests[1..])
  }

  /** The command carried by the newest request that carries one, if any. */
  function LastCommand(requests: seq<string>): Option<bool>
    decreases |requests|
  {
    if requests == [] then None
    else
      var last := requests[|requests| - 1];
      if Contains(last, AlarmOn) then Some(true)
      else if Contains(last, AlarmOff) then Some(false)
      else LastCommand(requests[..|requests| - 1])
  }

  /** One more request is one more transition on top of the earlier ones. */
  lemma {:induction false} AlarmAfterSnoc(active: bool, requests: seq<string>, request: string)
    ensures AlarmAfter(active, requests + [request]) == NextAlarm(AlarmAfter(active, requests), request)
    decreases |requests|
  {
    if requests != [] {
      assert (requests + [request])[1..] == requests[1..] + [request];
      AlarmAfterSnoc(NextAlarm(active, requests[0]), requests[1..], request);
    }
  }

  /** The flag is set by the newest command and is the starting flag if there was none. */
  lemma {:induction false} AlarmAfterIsLastCommand(active: bool, requests: seq<string>)
    ensures AlarmAfter(active, requests) == match LastCommand(requests) case Some(on) => on case None => active
    decreases |requests|
  {
    if requests != [] {
      var n := |requests| - 1;
      assert requests[..n] + [requests[n]] == requests;
      AlarmAfterSnoc(active, requests[..n], requests[n]);
      AlarmAfterIsLastCommand(active, requests[..n]);
    }
  }

  /** Serving the same run of requests again changes nothing; in particular a request
      repeated right after itself leaves the flag where the first copy put it. */
  lemma AlarmAfterIdempotent(active: bool, requests: seq<string>)
    ensures AlarmAfter(AlarmAfter(active, requests), requests) == AlarmAfter(active, requests)
    ensures requests != [] ==>
              NextAlarm(NextAlarm(active, requests[0]), requests[0]) == NextAlarm(active, requests[0])
  {
    AlarmAfterIsLastCommand(active, requests);
    AlarmAfterIsLastCommand(AlarmAfter(active, requests), requests);
  }

  /** The request the OFF button sends clears the flag from any state, unless the rest of
      the request text itself carries the ON command. */
  lemma OffRequestClears(active: bool, tail: string)
    requires !Contains(tail, AlarmOn)
    ensures !NextAlarm(active, AlarmOff + tail)
  {
    var s := AlarmOff + tail;
    forall i | 0 <= i <= |s| - |AlarmOn| ensures !OccursAt(s, AlarmOn, i) {
      if i == 0 {
        assert s[i..i + |AlarmOn|][13] != AlarmOn[13];
      } else if i < |AlarmOff| {
        assert s[i..i + |AlarmOn|][0] != AlarmOn[0];
      } else {
        assert s[i..i + |AlarmOn|] == tail[i - |AlarmOff|..i - |AlarmOff| + |AlarmOn|];
        assert !OccursAt(tail, AlarmOn, i - |AlarmOff|);
      }
    }
    assert OccursAt(s, AlarmOff, 0);
  }

  /** The level written to the buzzer pin: 1 exactly when the alarm is armed and the
      reading is strictly above 30 degrees or strictly above 80 percent humidity. */
  function BuzzerLevel(active: bool, temp: int, hum: int): (level: int)
    ensures level == 0 || level == 1
    ensures level == 1 <==> active && (temp > 30 || hum > 80)
    ensures !active ==> level == 0
    ensures temp <= 30 && hum <= 80 ==> level == 0
  {
    if active && (temp > 30 || hum > 80) then 1 else 0
  }

  /** The OLED's third line. */
  function StatusLine(active: bool): (line: string)
    ensures line == "ALARM ON!" <==> active
    ensures line == "System Normal" <==> !active
  {
    if active then "ALARM ON!" else "System Normal"
  }

  /** The three text lines `update_oled` draws (at y = 0, 10 and 30). */
  function OledLines(temp: int, hum: int, active: bool): (lines: seq<string>)
    ensures |lines| == 3
    ensures lines[0] == TempLine(temp) && lines[1] == HumLine(hum)
    ensures OccursAt(lines[0], "Temp: ", 0) && OccursAt(lines[0], Str(temp), |"Temp: "|)
    ensures OccursAt(lines[1], "Humidity: ", 0) && OccursAt(lines[1], Str(hum), |"Humidity: "|)
    ensures lines[2] == StatusLine(active)
    ensures lines[2] == "ALARM ON!" <==> active
    ensures lines[2] == "System Normal" <==> !active
  {
    ReadingLines(temp, hum);
    [TempLine(temp), HumLine(hum), StatusLine(active)]
  }

  /** The highlighted alarm indicator of the page. */
  const OnBadge := "<span class='alert'>ON</span>"

  /** The alarm-status fragment spliced into the page. */
  function StatusFragment(active: bool): (fragment: string)
    ensures fragment == OnBadge <==> active
    ensures fragment == "OFF" <==> !active
  {
    if active then OnBadge else "OFF"
  }

  /** The page text before the temperature: the document head, the style sheet and the
      opening of the body, which are not modelled, stand as an ellipsis. */
  const PagePrefix := "<!DOCTYPE html>...<h1>ESP32 Buzzer Alert System</h1><div class=\"card\"><h2> Temperature: "
  /** The page text between the temperature and the humidity. */
  const PageMiddle := "Â°C</h2><h2> Humidity: "
  /** The page text between the humidity and the alarm status. */
  const PageStatus := "%</h2></div><div class=\"card\"><h3> Alarm Status: "
  /** The page text after the alarm status: the two buttons (elided) and the closing tags. */
  const PageSuffix := "</h3>...</html>"

  /** Where the status fragment starts in the page for this reading. */
  function StatusOffset(temp: int, hum: int): nat
  {
    |PagePrefix| + |Str(temp)| + |PageMiddle| + |Str(hum)| + |PageStatus|
  }

  /** `generate_webpage(temp, hum, alarm)`. */
  function Page(temp: int, hum: int, active: bool): string
  {
    PagePrefix + Str(temp) + PageMiddle + Str(hum) + PageStatus + StatusFragment(active) + PageSuffix
  }

  /** Both readings and the status fragment appear at their interpolation points. */
  lemma PageLayout(temp: int, hum: int, active: bool)
    ensures |Page(temp, hum, active)| == StatusOffset(temp, hum) + |StatusFragment(active)| + |PageSuffix|
    ensures OccursAt(Page(temp, hum, active), Str(temp), |PagePrefix|)
    ensures OccursAt(Page(temp, hum, active), Str(hum), |PagePrefix| + |Str(temp)| + |PageMiddle|)
    ensures OccursAt(Page(temp, hum, active), StatusFragment(active), StatusOffset(temp, hum))
  {
    Spliced(PagePrefix, Str(temp), PageMiddle, Str(hum), PageStatus, StatusFragment(active), PageSuffix);
  }

  /** Where "OFF" is written, the ON badge is not. */
  lemma OffIsNotBadge(s: string, k: int)
    requires OccursAt(s, "OFF", k)
    ensures !OccursAt(s, OnBadge, k)
  {
    if k + |OnBadge| <= |s| {
      assert s[k] == "OFF"[0];
      assert s[k..k + |OnBadge|][0] != OnBadge[0];
    }
  }

  /** Every response starts with the fixed header and shows both readings. */
  lemma ResponseShowsReadings(temp: int, hum: int, active: bool)
    ensures Respond(Page(temp, hum, active))[..|Header|] == Header
    ensures OccursAt(Respond(Page(temp, hum, active)), Str(temp), |Header| + |PagePrefix|)
    ensures OccursAt(Respond(Page(temp, hum, active)), Str(hum), |Header| + |PagePrefix| + |Str(temp)| + |PageMiddle|)
  {
    var page := Page(temp, hum, active);
    PageLayout(temp, hum, active);
    RespondKeeps(page, Str(temp), |PagePrefix|);
    RespondKeeps(page, Str(hum), |PagePrefix| + |Str(temp)| + |PageMiddle|);
  }

  /** The response shows the ON badge where the status goes exactly when the alarm is armed. */
  lemma ResponseShowsStatus(temp: int, hum: int, active: bool)
    ensures OccursAt(Respond(Page(temp, hum, active)), OnBadge, |Header| + StatusOffset(temp, hum)) <==> active
  {
    var page := Page(temp, hum, active);
    PageLayout(temp, hum, active);
    RespondKeeps(page, StatusFragment(active), StatusOffset(temp, hum));
    if !active {
      OffIsNotBadge(Respond(page), |Header| + StatusOffset(temp, hum));
    }
  }

  /** A browser's `GET /?alarm=on ...` with a reading of 35 degrees and 50 percent arms the
      alarm, sounds the buzzer and shows the ON badge, whatever the flag was. */
  lemma AlarmOnScenario(active: bool, tail: string)
    ensures NextAlarm(active, AlarmOn + tail)
    ensures BuzzerLevel(NextAlarm(active, AlarmOn + tail), 35, 50) == 1
    ensures OccursAt(Respond(Page(35, 50, NextAlarm(active, AlarmOn + tail))), OnBadge, |Header| + StatusOffset(35, 50))
  {
    assert OccursAt(AlarmOn + tail, AlarmOn, 0);
    ResponseShowsStatus(35, 50, true);
  }

  /** What one connection produced: the level written to the buzzer and the text sent back. */
  datatype Served = Served(buzzer: int, response: string)

  /** What one connection yields once its request has left the flag at `next`. */
  function Outcome(next: bool, x: Exchange): Served
  {
    Served(BuzzerLevel(next, x.temp, x.hum), Respond(Page(x.temp, x.hum, next)))
  }

  /** What each connection of a run produces, starting from flag `active`. */
  function Trace(active: bool, xs: seq<Exchange>): (trace: seq<Served>)
    ensures |trace| == |xs|
    decreases |xs|
  {
    if xs == [] then []
    else
      var next := NextAlarm(active, xs[0].request);
      [Outcome(next, xs[0])] + Trace(next, xs[1..])
  }

  /** One more connection adds its own output, computed from the flag the earlier ones left. */
  lemma {:induction false} TraceSnoc(active: bool, xs: seq<Exchange>, x: Exchange)
    ensures var next := NextAlarm(AlarmAfter(active, Requests(xs)), x.request);
            Trace(active, xs + [x]) == Trace(active, xs) + [Outcome(next, x)]
    decreases |xs|
  {
    if xs != [] {
      assert (xs + [x])[1..] == xs[1..] + [x];
      assert Requests(xs) == [xs[0].request] + Requests(xs[1..]);
      TraceSnoc(NextAlarm(active, xs[0].request), xs[1..], x);
    }
  }

  /** One pass of the loop over a prefix of the connections: the flag and the outputs
      of the longer prefix follow from those of the shorter one. */
  lemma ServeStep(active: bool, xs: seq<Exchange>, i: nat, before: bool, after: bool)
    requires i < |xs|
    requires before == AlarmAfter(active, Requests(xs[..i]))
    requires after == NextAlarm(before, xs[i].request)
    ensures after == AlarmAfter(active, Requests(xs[..i + 1]))
    ensures Trace(active, xs[..i + 1]) == Trace(active, xs[..i]) + [Outcome(after, xs[i])]
  {
    assert xs[..i + 1] == xs[..i] + [xs[i]];
    TraceSnoc(active, xs[..i], xs[i]);
    AlarmAfterSnoc(active, Requests(xs[..i]), xs[i].request);
    RequestsSnoc(xs, i);
  }

  /** With the alarm disarmed and no request carrying the ON command, the buzzer is
      driven to 0 on every connection, whatever the readings. */
  lemma {:induction false} QuietWithoutOn(xs: seq<Exchange>)
    requires forall i :: 0 <= i < |xs| ==> !Contains(xs[i].request, AlarmOn)
    ensures forall i :: 0 <= i < |xs| ==> Trace(false, xs)[i].buzzer == 0
    decreases |xs|
  {
    if xs != [] {
      QuietWithoutOn(xs[1..]);
      assert !NextAlarm(false, xs[0].request);
    }
  }

  /** The board's state that outlives a connection: the alarm flag, the buzzer pin and the OLED. */
  class AlarmBoard {
    /** `alarm_active`. */
    var alarmActive: bool
    /** The level last written to the buzzer pin. */
    var buzzer: int
    /** The text lines last drawn on the OLED. */
    var display: seq<string>

    /** The program starts with the alarm disarmed; the pin is taken to start low. */
    constructor ()
      ensures !alarmActive && buzzer == 0 && display == []
    {
      alarmActive := false;
      buzzer := 0;
      display := [];
    }

    /** `activate_buzzer`: drives the pin high for true and low for false. */
    method ActivateBuzzer(state: bool)
      modifies this`buzzer
      ensures buzzer == if state then 1 else 0
    {
      if state {
        buzzer := 1;
      } else {
        buzzer := 0;
      }
    }

    /** `update_oled`: clears the screen and draws the three lines. */
    method UpdateOled(temp: int, hum: int, active: bool)
      modifies this`display
      ensures display == OledLines(temp, hum, active)
    {
      display := OledLines(temp, hum, active);
    }

    /** The buzzer and the OLED reflect this reading and the current flag. */
    predicate Shows(temp: int, hum: int)
      reads this
    {
      buzzer == BuzzerLevel(alarmActive, temp, hum) && display == OledLines(temp, hum, alarmActive)
    }

    /** One pass of the main loop for an already received request and reading.
        Returns the level written to the buzzer and the text sent back. */
    method HandleRequest(request: string, temp: int, hum: int) returns (level: int, response: string)
      modifies this
      ensures alarmActive == NextAlarm(old(alarmActive), request)
      ensures level == BuzzerLevel(alarmActive, temp, hum) && buzzer == level
      ensures display == OledLines(temp, hum, alarmActive)
      ensures response == Respond(Page(temp, hum, alarmActive))
      ensures Shows(temp, hum)
    {
      if Contains(request, AlarmOn) {
        alarmActive := true;
      } else if Contains(request, AlarmOff) {
        alarmActive := false;
      }
      if alarmActive && (temp > 30 || hum > 80) {
        ActivateBuzzer(true);
      } else {
        ActivateBuzzer(false);
      }
      UpdateOled(temp, hum, alarmActive);
      response := Respond(Page(temp, hum, alarmActive));
      level := buzzer;
    }

    /** The `while True` loop run over a finite sequence of connections. */
    method Serve(exchanges: seq<Exchange>) returns (trace: seq<Served>)
      modifies this
      ensures alarmActive == AlarmAfter(old(alarmActive), Requests(exchanges))
      ensures trace == Trace(old(alarmActive), exchanges)
      ensures exchanges != [] ==>
                var x := exchanges[|exchanges| - 1];
                buzzer == BuzzerLevel(alarmActive, x.temp, x.hum) && display == OledLines(x.temp, x.hum, alarmActive)
      ensures exchanges == [] ==> buzzer == old(buzzer) && display == old(display)
    {
      trace := [];
      var i := 0;
      while i < |exchanges|
        invariant 0 <= i <= |exchanges|
        invariant alarmActive == AlarmAfter(old(alarmActive), Requests(exchanges[..i]))
        invariant trace == Trace(old(alarmActive), exchanges[..i])
        invariant i > 0 ==> Shows(exchanges[i - 1].temp, exchanges[i - 1].hum)
        invariant i == 0 ==> buzzer == old(buzzer) && display == old(display)
      {
        var x := exchanges[i];
        ghost var before := alarmActive;
        var level, response := HandleRequest(x.request, x.temp, x.hum);
        ServeStep(old(alarmActive), exchanges, i, before, alarmActive);
        assert Served(level, response) == Outcome(alarmActive, x);
        trace := trace + [Served(level, response)];
        i := i + 1;
      }
      assert exchanges[..i] == exchanges;
    }
  }
}
