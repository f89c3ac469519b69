/** The display controller's state and its main loop (src/main.cpp): the two
    globals `screenMode` and `tempValue`, `handleClient`, which updates them
    in place, and one pass of `loop`, which first handles a request and then
    draws the frame from the updated state. */
module Controller {
  import opened Machine
  import opened Optional
  import opened ArduinoString
  import opened Format
  import opened Request
  import opened Render

  /** What one pass of `loop` produces: the settings after it, the bytes sent
      back to the client (none when no client was waiting) and the frame. */
  datatype TickResult = TickResult(settings: Settings, response: Option<string>, frame: Frame)

  /** The settings after `handleClient`: unchanged when no client is waiting,
      otherwise updated from its request line. */
  function AfterClient(st: Settings, pending: Option<string>): (r: Settings)
    ensures pending.None? ==> r == st
    ensures pending.Some? && !StartsWith(pending.value, RoutePrefix) ==> r == st
  {
    match pending
    case None => st
    case Some(line) => Apply(st, line)
  }

  /** One pass of `loop` on values: the request first, then the frame drawn
      from the settings it left. */
  function Step(st: Settings, pending: Option<string>, hours: Hour, minutes: Minute,
                width: Int16, height: Int16, bounds: string -> TextBox): (r: TickResult)
    ensures r.settings == AfterClient(st, pending)
    ensures r.response == if pending.Some? then Some(Response(r.settings)) else None
    ensures r.frame.text == RenderText(r.settings.mode, r.settings.value, hours, minutes)
    ensures r.frame == DrawCentered(r.frame.text, width, height, bounds)
  {
    var next := AfterClient(st, pending);
    var response := if pending.Some? then Some(Response(next)) else None;
    var text := RenderText(next.mode, next.value, hours, minutes);
    TickResult(next, response, DrawCentered(text, width, height, bounds))
  }

  /** The controller, holding the globals `screenMode` and `tempValue`. */
  class Display {
    var screenMode: Int32
    var tempValue: Int32

    /** The two settings as a value. */
    function Snapshot(): Settings
      reads this
    {
      Settings(screenMode, tempValue)
    }

    /** Both globals start at 0: the clock screen, temperature 0. */
    constructor ()
      ensures Snapshot() == Settings(0, 0)
    {
      screenMode := 0;
      tempValue := 0;
    }

    /** `handleClient`: with no client waiting, nothing happens; otherwise
        the request line is decoded, `screenMode` and then `tempValue` are
        overwritten when their key occurs, and the response reports the
        settings now held. */
    method HandleClient(pending: Option<string>) returns (response: Option<string>)
      modifies this
      ensures Snapshot() == AfterClient(old(Snapshot()), pending)
      ensures pending.None? ==> response.None?
      ensures pending.Some? ==> response == Some(Response(Snapshot()))
    {
      if pending.None? {
        return None;
      }
      var req := pending.value;
      if StartsWith(req, RoutePrefix) {
        KeysAreKeys();
        var found, parsed := ReadField(req, ModeKey);
        if found {
          screenMode := parsed;
        }
        found, parsed := ReadField(req, TempKey);
        if found {
          tempValue := parsed;
        }
      }
      response := Some(Response(Snapshot()));
    }

    /** One pass of `loop`: handle a waiting client, then render the text the
        updated mode selects and center it on the panel. The time update is
        the `hours` and `minutes` given. */
    method Tick(pending: Option<string>, hours: Hour, minutes: Minute,
                width: Int16, height: Int16, bounds: string -> TextBox)
      returns (response: Option<string>, frame: Frame)
      modifies this
      ensures TickResult(Snapshot(), response, frame)
              == Step(old(Snapshot()), pending, hours, minutes, width, height, bounds)
    {
      response := HandleClient(pending);
      var text: string;
      if screenMode == 0 {
        text := ClockText(hours, minutes);
      } else {
        text := TempText(tempValue);
      }
      frame := DrawCentered(text, width, height, bounds);
    }
  }

  /** A request is shown in the frame of the same pass: after
      `mode=<m>&temp=<v>` with `m` not 0, the frame's text is the value
      followed by `F` and reads back as `v`, and the client is told
      `Mode=<m>, Temp=<v>`. */
  lemma QueryShownSameTick(st: Settings, m: Int32, v: Int32, hours: Hour, minutes: Minute,
                           width: Int16, height: Int16, bounds: string -> TextBox)
    requires m != 0
    ensures var r := Step(st, Some(QueryLine(m, v)), hours, minutes, width, height, bounds);
      && r.settings == Settings(m, v)
      && r.response == Some(ResponseHead + ("Mode=" + Decimal(m) + ", Temp=" + Decimal(v)))
      && r.frame.text == TempText(v) && ToInt(r.frame.text) == v
  {
    RoundTrip(st, m, v);
    var r := Step(st, Some(QueryLine(m, v)), hours, minutes, width, height, bounds);
    assert r.settings == Settings(m, v);
    assert r.response == Some(Response(Settings(m, v)));
    assert r.frame.text == RenderText(m, v, hours, minutes);
  }

  /** Selecting the clock keeps the temperature: after `mode=0&temp=<v>` the
      frame shows the time and the value is still held. */
  lemma ClockSelectedSameTick(st: Settings, v: Int32, hours: Hour, minutes: Minute,
                              width: Int16, height: Int16, bounds: string -> TextBox)
    ensures var r := Step(st, Some(QueryLine(0, v)), hours, minutes, width, height, bounds);
      && r.settings == Settings(0, v)
      && r.frame.text == ClockText(hours, minutes)
  {
    RoundTrip(st, 0, v);
  }

  /** The temperature survives mode switches: switching to the clock with
      `mode=0` and back with `mode=<m>` (neither line carries `temp=`) shows
      the value held before the switch. */
  lemma TempKeptAcrossModeSwitch(st: Settings, m: Int32, hours: Hour, minutes: Minute,
                                 width: Int16, height: Int16, bounds: string -> TextBox)
    requires m != 0
    ensures var toClock := RoutePrefix + ModeKey + Decimal(0) + " HTTP/1.1";
      var back := RoutePrefix + ModeKey + Decimal(m) + " HTTP/1.1";
      var r1 := Step(st, Some(toClock), hours, minutes, width, height, bounds);
      var r2 := Step(r1.settings, Some(back), hours, minutes, width, height, bounds);
      && r1.settings == Settings(0, st.value)
      && r1.frame.text == ClockText(hours, minutes)
      && r2.settings == Settings(m, st.value)
      && r2.frame.text == TempText(st.value)
  {
    ModeOnlyKeepsValue(st, 0);
    ModeOnlyKeepsValue(Settings(0, st.value), m);
  }

  /** A request for another path changes neither setting, is still answered
      with a report of both, and the frame is the one the old settings give. */
  lemma OtherPathChangesNothing(st: Settings, line: string, hours: Hour, minutes: Minute,
                                width: Int16, height: Int16, bounds: string -> TextBox)
    requires !StartsWith(line, RoutePrefix)
    ensures var r := Step(st, Some(line), hours, minutes, width, height, bounds);
      && r.settings == st
      && r.response == Some(ResponseHead + ResponseBody(st))
      && r.frame == DrawCentered(RenderText(st.mode, st.value, hours, minutes), width, height, bounds)
  {
  }

  /** With no client waiting, the settings stay, nothing is sent and the
      frame is drawn from the settings as they were. */
  lemma IdleTick(st: Settings, hours: Hour, minutes: Minute,
                 width: Int16, height: Int16, bounds: string -> TextBox)
    ensures var r := Step(st, None, hours, minutes, width, height, bounds);
      && r.settings == st && r.response.None?
      && r.frame == DrawCentered(RenderText(st.mode, st.value, hours, minutes), width, height, bounds)
  {
  }

  /** Sending the same request in two passes leaves the settings as after
      the first. */
  lemma RepeatedRequest(st: Settings, line: string, hours: Hour, minutes: Minute,
                        width: Int16, height: Int16, bounds: string -> TextBox)
    ensures var r1 := Step(st, Some(line), hours, minutes, width, height, bounds);
      var r2 := Step(r1.settings, Some(line), hours, minutes, width, height, bounds);
      r2.settings == r1.settings && r2.response == r1.response && r2.frame == r1.frame
  {
    ApplyIdempotent(st, line);
  }

  /** The overrun of the firmware's 8-byte temperature buffer is reachable
      from the network: `mode=1&temp=1000000` makes the next frame's text
      `1000000F`, which with its NUL needs nine bytes. */
  lemma SourceBufferOverrunFromRequest(st: Settings, hours: Hour, minutes: Minute,
                                       width: Int16, height: Int16, bounds: string -> TextBox)
    ensures var r := Step(st, Some(QueryLine(1, 1_000_000)), hours, minutes, width, height, bounds);
      r.frame.text == TempText(1_000_000) && !FitsBuffer(r.frame.text, SourceTempBufferSize)
  {
    QueryShownSameTick(st, 1, 1_000_000, hours, minutes, width, height, bounds);
    TempTextFitsSourceBuffer(1_000_000);
  }
}
