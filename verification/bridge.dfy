/** The per-event translation performed by the serial-forwarding program's
    main loop: relative X/Y motion above a small threshold is forwarded as a
    move command, left-button transitions are forwarded after a debounce, and
    everything else is ignored. The device, the clock and the serial port are
    cut away: each event arrives with the millisecond clock reading taken for
    it, and the written text is returned instead of sent. */
module Bridge {
  import opened Wrappers
  import opened Decimal
  import opened Protocol

  /** Motion of smaller magnitude is dropped as jitter. */
  const MinMovementThreshold: nat := 2
  /** An accepted button change must come strictly more than this many
      milliseconds after the previous accepted one. */
  const ButtonDebounceMs: int := 50

  // Event type and code numbers of the Linux input event interface.
  const EvKey: int := 0x01
  const EvRel: int := 0x02
  const RelX: int := 0x00
  const RelY: int := 0x01
  const BtnLeft: int := 0x110

  /** One decoded input event: type, code and value. */
  datatype InputEvent = InputEvent(evType: int, code: int, value: int)

  /** The last accepted button value (absent before the first one) and the
      clock reading, in milliseconds, at which it was accepted. */
  datatype ButtonState = ButtonState(lastValue: Option<int>, lastTime: int)

  const Initial := ButtonState(None, 0)

  /** What one event produces: at most one command, and the next state. */
  datatype Reaction = Reaction(cmd: Option<Command>, next: ButtonState)

  function Abs(x: int): nat {
    if x < 0 then -x else x
  }

  predicate IsMotion(ev: InputEvent) {
    ev.evType == EvRel && (ev.code == RelX || ev.code == RelY)
  }

  predicate IsLeftButton(ev: InputEvent) {
    ev.evType == EvKey && ev.code == BtnLeft
  }

  function AxisOf(ev: InputEvent): Axis
    requires IsMotion(ev)
  {
    if ev.code == RelX then X else Y
  }

  /** The debounce test: a change of value, strictly after the window. */
  predicate Accepts(st: ButtonState, value: int, nowMs: int)
    ensures st.lastValue == Some(value) ==> !Accepts(st, value, nowMs)
    ensures nowMs - st.lastTime <= ButtonDebounceMs ==> !Accepts(st, value, nowMs)
    ensures Accepts(st, value, nowMs) ==> nowMs > st.lastTime
    ensures st.lastValue.None? && nowMs > st.lastTime + ButtonDebounceMs ==> Accepts(st, value, nowMs)
  {
    st.lastValue != Some(value) && nowMs - st.lastTime > ButtonDebounceMs
  }

  /** One iteration of the forwarding loop. */
  function Step(st: ButtonState, ev: InputEvent, nowMs: int): (r: Reaction)
    ensures r.next != st ==>
      IsLeftButton(ev) && r.cmd == Some(Button(ev.value))
      && r.next == ButtonState(Some(ev.value), nowMs)
    ensures r.cmd.Some? && r.cmd.value.Move? ==>
      IsMotion(ev) && r.cmd.value == Move(AxisOf(ev), ev.value)
      && Abs(ev.value) >= MinMovementThreshold
    ensures r.cmd.Some? && r.cmd.value.Button? ==>
      IsLeftButton(ev) && r.cmd.value.value == ev.value && Accepts(st, ev.value, nowMs)
      && r.next == ButtonState(Some(ev.value), nowMs)
  {
    if ev.evType == EvRel then
      if ev.code == RelX && Abs(ev.value) >= MinMovementThreshold then
        Reaction(Some(Move(X, ev.value)), st)
      else if ev.code == RelY && Abs(ev.value) >= MinMovementThreshold then
        Reaction(Some(Move(Y, ev.value)), st)
      else
        Reaction(None, st)
    else if ev.evType == EvKey && ev.code == BtnLeft then
      if Accepts(st, ev.value, nowMs) then
        Reaction(Some(Button(ev.value)), ButtonState(Some(ev.value), nowMs))
      else
        Reaction(None, st)
    else
      Reaction(None, st)
  }

  /** The text one event writes to the link: one line or nothing. */
  function Written(r: Reaction): (w: string)
    ensures r.cmd.None? <==> w == ""
    ensures r.cmd.Some? ==> Newlines(w) == 1 && ParseLine(w) == Some(r.cmd.value)
  {
    match r.cmd
    case Some(c) =>
      RenderIsOneLine(c);
      ParseLineRoundTrip(c);
      Render(c)
    case None => ""
  }

  /** A large enough X or Y motion writes exactly one line: the axis tag, the
      signed decimal value, a newline; decoding the decimal gives the value
      back, and the button state is untouched. */
  lemma MotionWritesLine(st: ButtonState, ev: InputEvent, nowMs: int)
    requires IsMotion(ev) && Abs(ev.value) >= MinMovementThreshold
    ensures var line := Written(Step(st, ev, nowMs));
      && |line| > 3
      && line[..2] == (if ev.code == RelX then "X:" else "Y:")
      && line[|line| - 1] == '\n'
      && ParseInt(line[2..|line| - 1]) == Some(ev.value)
      && ParseLine(line) == Some(Move(AxisOf(ev), ev.value))
    ensures Written(Step(st, ev, nowMs))
      == (if ev.code == RelX then "X:" else "Y:") + IntToString(ev.value) + "\n"
    ensures Step(st, ev, nowMs).next == st
  {
    var c := Move(AxisOf(ev), ev.value);
    var line := Render(c);
    assert line[2..|line| - 1] == IntToString(ev.value);
    ParseIntRoundTrip(ev.value);
    ParseLineRoundTrip(c);
  }

  /** Motion below the threshold writes nothing and changes nothing. */
  lemma SmallMotionDropped(st: ButtonState, ev: InputEvent, nowMs: int)
    requires IsMotion(ev) && Abs(ev.value) < MinMovementThreshold
    ensures Step(st, ev, nowMs) == Reaction(None, st)
  {
  }

  /** Relative-motion events, on any axis, never touch the button state. */
  lemma MotionKeepsButtonState(st: ButtonState, ev: InputEvent, nowMs: int)
    requires ev.evType == EvRel
    ensures Step(st, ev, nowMs).next == st
    ensures Step(st, ev, nowMs).cmd.Some? ==> IsMotion(ev)
  {
  }

  /** A left-button event repeating the last accepted value is swallowed. */
  lemma RepeatedButtonIgnored(st: ButtonState, ev: InputEvent, nowMs: int)
    requires IsLeftButton(ev) && st.lastValue == Some(ev.value)
    ensures Step(st, ev, nowMs) == Reaction(None, st)
  {
  }

  /** A left-button event at most 50 ms after the last accepted one is
      swallowed even when its value differs. */
  lemma DebounceWindowSuppresses(st: ButtonState, ev: InputEvent, nowMs: int)
    requires IsLeftButton(ev) && nowMs - st.lastTime <= ButtonDebounceMs
    ensures Step(st, ev, nowMs) == Reaction(None, st)
  {
  }

  /** The comparison is strict: a release exactly 50 ms after a press is
      dropped, one 51 ms after it is forwarded. */
  lemma DebounceBoundaryIsStrict()
    ensures Step(ButtonState(Some(1), 1000), InputEvent(EvKey, BtnLeft, 0), 1050)
      == Reaction(None, ButtonState(Some(1), 1000))
    ensures Step(ButtonState(Some(1), 1000), InputEvent(EvKey, BtnLeft, 0), 1051)
      == Reaction(Some(Button(0)), ButtonState(Some(0), 1051))
  {
  }

  /** A left-button event is forwarded exactly when the debounce test passes;
      the written line is `BTN:` and the decimal value, and the state becomes
      that value at that time. */
  lemma ButtonForwardedIff(st: ButtonState, ev: InputEvent, nowMs: int)
    requires IsLeftButton(ev)
    ensures Step(st, ev, nowMs).cmd.Some? <==> Accepts(st, ev.value, nowMs)
    ensures Accepts(st, ev.value, nowMs) ==>
      var line := Written(Step(st, ev, nowMs));
      && line[..4] == "BTN:" && line[|line| - 1] == '\n'
      && ParseInt(line[4..|line| - 1]) == Some(ev.value)
      && line == "BTN:" + IntToString(ev.value) + "\n"
      && Step(st, ev, nowMs).next == ButtonState(Some(ev.value), nowMs)
  {
    if Accepts(st, ev.value, nowMs) {
      var line := Render(Button(ev.value));
      assert line[4..|line| - 1] == IntToString(ev.value);
      ParseIntRoundTrip(ev.value);
    }
  }

  /** Before any click every value counts as a change, so the first left-button
      event is forwarded as soon as the clock reads more than 50 ms. */
  lemma FirstButtonForwarded(ev: InputEvent, nowMs: int)
    requires IsLeftButton(ev) && nowMs > ButtonDebounceMs
    ensures Step(Initial, ev, nowMs).cmd == Some(Button(ev.value))
  {
  }

  /** Events that are neither X/Y motion nor the left button are ignored. */
  lemma OtherEventsIgnored(st: ButtonState, ev: InputEvent, nowMs: int)
    requires !IsMotion(ev) && !IsLeftButton(ev)
    ensures Step(st, ev, nowMs) == Reaction(None, st)
  {
  }

  /** An input event together with the clock reading taken for it. */
  datatype Timed = Timed(ev: InputEvent, nowMs: int)

  /** A command written to the link, and the clock reading of its event. */
  datatype Emission = Emission(cmd: Command, atMs: int)

  datatype Trace = Trace(emitted: seq<Emission>, final: ButtonState)

  /** The forwarding loop over a finite stream of events. */
  function Run(st: ButtonState, evs: seq<Timed>): (t: Trace)
    ensures |t.emitted| <= |evs|
    decreases |evs|
  {
    if |evs| == 0 then Trace([], st)
    else
      var t := Run(st, evs[..|evs| - 1]);
      var e := evs[|evs| - 1];
      var r := Step(t.final, e.ev, e.nowMs);
      Trace(t.emitted + (if r.cmd.Some? then [Emission(r.cmd.value, e.nowMs)] else []), r.next)
  }

  function Commands(ems: seq<Emission>): (cs: seq<Command>)
    ensures |cs| == |ems|
    ensures forall i :: 0 <= i < |ems| ==> cs[i] == ems[i].cmd
  {
    seq(|ems|, i requires 0 <= i < |ems| => ems[i].cmd)
  }

  /** The button commands among the emissions, in order. */
  function ButtonEmissions(ems: seq<Emission>): seq<Emission>
    decreases |ems|
  {
    if |ems| == 0 then []
    else
      var e := ems[|ems| - 1];
      ButtonEmissions(ems[..|ems| - 1]) + (if e.cmd.Button? then [e] else [])
  }

  /** The button state an accepted button emission leaves behind. */
  function After(e: Emission): ButtonState
    requires e.cmd.Button?
  {
    ButtonState(Some(e.cmd.value), e.atMs)
  }

  /** Two successive forwarded button lines: different values, accepted
      more than 50 ms apart. */
  predicate Separated(a: Emission, b: Emission) {
    && a.cmd.Button? && b.cmd.Button?
    && a.cmd.value != b.cmd.value
    && b.atMs - a.atMs > ButtonDebounceMs
  }

  /** Button emissions that each pass the debounce test against the one
      before, the first against the starting state. */
  ghost predicate Debounced(st: ButtonState, bs: seq<Emission>) {
    && (forall i :: 0 <= i < |bs| ==> bs[i].cmd.Button?)
    && (|bs| > 0 ==> Accepts(st, bs[0].cmd.value, bs[0].atMs))
    && (forall i :: 0 <= i < |bs| - 1 ==> Separated(bs[i], bs[i + 1]))
  }

  /** The state a sequence of accepted button emissions ends in. */
  function LastAccepted(st: ButtonState, bs: seq<Emission>): ButtonState
    requires forall i :: 0 <= i < |bs| ==> bs[i].cmd.Button?
  {
    if |bs| == 0 then st else After(bs[|bs| - 1])
  }

  lemma RunSnoc(st: ButtonState, evs: seq<Timed>)
    requires |evs| > 0
    ensures var t := Run(st, evs[..|evs| - 1]);
      var e := evs[|evs| - 1];
      var r := Step(t.final, e.ev, e.nowMs);
      && Run(st, evs).final == r.next
      && Run(st, evs).emitted
         == t.emitted + (if r.cmd.Some? then [Emission(r.cmd.value, e.nowMs)] else [])
  {
  }

  lemma ButtonEmissionsSnoc(ems: seq<Emission>, e: Emission)
    ensures ButtonEmissions(ems + [e])
      == ButtonEmissions(ems) + (if e.cmd.Button? then [e] else [])
  {
    assert (ems + [e])[..|ems|] == ems;
  }

  /** Appending an emission that passes the debounce test against the state
      the earlier ones leave keeps the sequence debounced. */
  lemma DebouncedSnoc(st: ButtonState, bs: seq<Emission>, e: Emission)
    requires Debounced(st, bs)
    requires e.cmd.Button? && Accepts(LastAccepted(st, bs), e.cmd.value, e.atMs)
    ensures Debounced(st, bs + [e])
    ensures LastAccepted(st, bs + [e]) == After(e)
  {
    var bs' := bs + [e];
    forall i | 0 <= i < |bs'| - 1
      ensures Separated(bs'[i], bs'[i + 1])
    {
      if i + 1 < |bs| {
        assert bs'[i] == bs[i] && bs'[i + 1] == bs[i + 1];
      } else {
        assert bs'[i] == bs[|bs| - 1] && bs'[i + 1] == e;
      }
    }
  }

  /** Over any event stream, in any clock order, consecutive forwarded button
      lines carry different values and were accepted more than 50 ms apart,
      and the final state is the last forwarded button value and its time. */
  lemma {:induction false} DebounceInvariant(st: ButtonState, evs: seq<Timed>)
    ensures Debounced(st, ButtonEmissions(Run(st, evs).emitted))
    ensures Run(st, evs).final == LastAccepted(st, ButtonEmissions(Run(st, evs).emitted))
    decreases |evs|
  {
    if |evs| > 0 {
      var pre := evs[..|evs| - 1];
      var t := Run(st, pre);
      DebounceInvariant(st, pre);
      RunSnoc(st, evs);
      var e := evs[|evs| - 1];
      var r := Step(t.final, e.ev, e.nowMs);
      var bs := ButtonEmissions(t.emitted);
      if r.cmd.Some? {
        var em := Emission(r.cmd.value, e.nowMs);
        ButtonEmissionsSnoc(t.emitted, em);
        if r.cmd.value.Button? {
          DebouncedSnoc(st, bs, em);
        }
      } else {
        assert t.emitted + [] == t.emitted;
      }
    }
  }

  /** Forwarded button lines are spread out: the k-th after a given one was
      accepted more than k times 50 ms later. */
  lemma TimesStrictlyIncrease(st: ButtonState, evs: seq<Timed>, i: int, j: int)
    requires var bs := ButtonEmissions(Run(st, evs).emitted); 0 <= i < j < |bs|
    ensures var bs := ButtonEmissions(Run(st, evs).emitted);
      bs[j].atMs - bs[i].atMs > (j - i) * ButtonDebounceMs
  {
    var bs := ButtonEmissions(Run(st, evs).emitted);
    DebounceInvariant(st, evs);
    var k := i + 1;
    while k < j
      invariant i < k <= j
      invariant bs[k].atMs - bs[i].atMs > (k - i) * ButtonDebounceMs
    {
      k := k + 1;
    }
  }

  /** Processing one more event appends that event's text to the wire. */
  lemma CommandsSnoc(ems: seq<Emission>, added: seq<Emission>)
    ensures Commands(ems + added) == Commands(ems) + Commands(added)
  {
  }

  lemma TranscriptSnoc(st: ButtonState, evs: seq<Timed>)
    requires |evs| > 0
    ensures var t := Run(st, evs[..|evs| - 1]);
      var e := evs[|evs| - 1];
      Transcript(Commands(Run(st, evs).emitted))
        == Transcript(Commands(t.emitted)) + Written(Step(t.final, e.ev, e.nowMs))
  {
    var t := Run(st, evs[..|evs| - 1]);
    var e := evs[|evs| - 1];
    var r := Step(t.final, e.ev, e.nowMs);
    var added := if r.cmd.Some? then [Emission(r.cmd.value, e.nowMs)] else [];
    RunSnoc(st, evs);
    CommandsSnoc(t.emitted, added);
    var before := Commands(t.emitted);
    if r.cmd.Some? {
      assert Commands(added) == [r.cmd.value];
      TranscriptAppend(before, r.cmd.value);
    } else {
      assert Commands(added) == [];
      assert before + [] == before;
    }
  }

  /** The serial-forwarding loop as it runs: starting from no button state,
      each event's line, if any, is appended to the text written so far. The
      text written reads back as the commands of the fold. */
  method Forward(events: seq<Timed>) returns (written: string, last: ButtonState)
    ensures written == Transcript(Commands(Run(Initial, events).emitted))
    ensures ParseStream(written) == Some(Commands(Run(Initial, events).emitted))
    ensures last == Run(Initial, events).final
  {
    written := "";
    last := Initial;
    var i := 0;
    while i < |events|
      invariant 0 <= i <= |events|
      invariant written == Transcript(Commands(Run(Initial, events[..i]).emitted))
      invariant last == Run(Initial, events[..i]).final
    {
      var r := Step(last, events[i].ev, events[i].nowMs);
      assert events[..i + 1][..i] == events[..i];
      TranscriptSnoc(Initial, events[..i + 1]);
      RunSnoc(Initial, events[..i + 1]);
      written := written + Written(r);
      last := r.next;
      i := i + 1;
    }
    assert events[..|events|] == events;
    ParseStreamRoundTrip(Commands(Run(Initial, events).emitted));
  }
}
