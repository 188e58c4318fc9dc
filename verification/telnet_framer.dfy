/** The per-byte telnet framer of the protocol object (`handle_reader`):
    RFC 854 IAC escaping and CR LF / CR NUL line endings, RFC 855
    IAC SB ... IAC SE subnegotiation, and the four event kinds it hands to
    the dispatcher. The parse state persists between calls; the buffer of
    application bytes is local to one call. */
module TelnetFramer {
  import opened Wrappers
  import opened TelnetCodes

  datatype TState = Data | Escaped | Subnegotiation | InSubnegotiation | SubEscaped | Command | Endline

  /** The framing fields kept on the protocol object. `negotiateCode` is
      `None` while the attribute has never been assigned. */
  datatype ParseState = ParseState(tstate: TState, iacCommand: byte, negotiateBuffer: seq<byte>, negotiateCode: Option<byte>)

  /** The state of a freshly constructed protocol object. */
  const Initial: ParseState := ParseState(Data, 0, [], None)

  datatype Event =
    | Application(data: seq<byte>)
    | Control(command: byte)
    | Negotiate(command: byte, option: byte)
    | Subnegotiate(option: byte, data: seq<byte>)

  /** What one byte does: add bytes to the application buffer, nothing
      visible, hand an event on (after which the state becomes `after`),
      or raise (reading `negotiate_code` before it was ever assigned). */
  datatype Emit = Append(bytes: seq<byte>) | Quiet | Signal(event: Event, after: ParseState) | Fault

  function Step(p: ParseState, b: byte): (r: (ParseState, Emit))
    ensures r.1.Append? ==> |r.1.bytes| > 0
    ensures r.1.Signal? ==> r.0.tstate == Data && r.1.after.tstate == Data
  {
    match p.tstate
    case Data =>
      if b == IAC then (p.(tstate := Escaped), Quiet)
      else if b == CR then (p.(tstate := Endline), Quiet)
      else (p, Append([b]))
    case Escaped =>
      if b == IAC then (p.(tstate := Data), Append([IAC]))
      else if b == SB then (p.(tstate := Subnegotiation, negotiateBuffer := []), Quiet)
      else if IsVerb(b) then (p.(tstate := Command, iacCommand := b), Quiet)
      else
        var q := p.(tstate := Data);
        (q, Signal(Control(b), q))
    case Command =>
      var q := p.(tstate := Data);
      (q, Signal(Negotiate(p.iacCommand, b), q.(iacCommand := 0)))
    case Endline =>
      if b == LF then (p.(tstate := Data), Append([LF]))
      else if b == NUL then (p.(tstate := Data), Append([CR]))
      else if b == IAC then (p.(tstate := Escaped), Append([CR]))
      else (p.(tstate := Data), Append([CR, b]))
    case Subnegotiation =>
      if b == IAC then (p.(tstate := SubEscaped), Quiet)
      else (p.(tstate := InSubnegotiation, negotiateCode := Some(b)), Quiet)
    case InSubnegotiation =>
      if b == IAC then (p.(tstate := SubEscaped), Quiet)
      else (p.(negotiateBuffer := p.negotiateBuffer + [b]), Quiet)
    case SubEscaped =>
      if b == SE then
        var q := p.(tstate := Data);
        match p.negotiateCode
        case None => (q, Fault)
        case Some(code) =>
          (q, Signal(Subnegotiate(code, p.negotiateBuffer), q.(negotiateCode := Some(0), negotiateBuffer := [])))
      else (p.(tstate := Subnegotiation, negotiateBuffer := p.negotiateBuffer + [b]), Quiet)
  }

  /** The result of one call: the parse state left on the object, what the
      receiver of events has become, and whether the call raised. */
  datatype Ran<S> = Ran(parser: ParseState, sink: S, faulted: bool)

  /** Hands the pending application bytes on, if there are any. */
  function Flush<S>(sink: S, buf: seq<byte>, deliver: (S, Event) -> Option<S>): Option<S> {
    if |buf| == 0 then Some(sink) else deliver(sink, Application(buf))
  }

  /** One call of the framer over `data`, with `buf` the application bytes
      gathered so far in this call. Every event is handed to `deliver`,
      which answers `None` when handling it raised; an exception ends the
      call where it happened. */
  function Run<S>(p: ParseState, data: seq<byte>, buf: seq<byte>, sink: S, deliver: (S, Event) -> Option<S>): Ran<S>
    decreases |data|
  {
    if |data| == 0 then
      match Flush(sink, buf, deliver)
      case None => Ran(p, sink, true)
      case Some(s) => Ran(p, s, false)
    else
      var (p1, e) := Step(p, data[0]);
      match e
      case Append(bs) => Run(p1, data[1..], buf + bs, sink, deliver)
      case Quiet => Run(p1, data[1..], buf, sink, deliver)
      case Fault =>
        (match Flush(sink, buf, deliver)
         case None => Ran(p1, sink, true)
         case Some(s) => Ran(p1, s, true))
      case Signal(ev, p2) =>
        match Flush(sink, buf, deliver)
        case None => Ran(p1, sink, true)
        case Some(s) =>
          match deliver(s, ev)
          case None => Ran(p1, s, true)
          case Some(s2) => Run(p2, data[1..], [], s2, deliver)
  }

  /** The receiver that only records the events, in order. */
  function Record(evs: seq<Event>, e: Event): Option<seq<Event>> {
    Some(evs + [e])
  }

  /** The events one call of the framer produces. */
  function Feed(p: ParseState, data: seq<byte>): Ran<seq<Event>> {
    Run(p, data, [], [], Record)
  }

  /** The application event a flush produces, if any. */
  function Flushed(buf: seq<byte>): seq<Event> {
    if |buf| > 0 then [Application(buf)] else []
  }

  // ---------------------------------------------------------------------
  // One step of a call

  lemma RunAppend<S>(p: ParseState, b: byte, rest: seq<byte>, buf: seq<byte>, sink: S, deliver: (S, Event) -> Option<S>)
    requires Step(p, b).1.Append?
    ensures Run(p, [b] + rest, buf, sink, deliver) == Run(Step(p, b).0, rest, buf + Step(p, b).1.bytes, sink, deliver)
  {
    assert ([b] + rest)[0] == b && ([b] + rest)[1..] == rest;
  }

  lemma RunQuiet<S>(p: ParseState, b: byte, rest: seq<byte>, buf: seq<byte>, sink: S, deliver: (S, Event) -> Option<S>)
    requires Step(p, b).1.Quiet?
    ensures Run(p, [b] + rest, buf, sink, deliver) == Run(Step(p, b).0, rest, buf, sink, deliver)
  {
    assert ([b] + rest)[0] == b && ([b] + rest)[1..] == rest;
  }

  /** A step that hands an event on: the pending bytes are flushed first,
      then the event is delivered, and the call continues from `after`. */
  lemma RunSignalAny<S>(p: ParseState, data: seq<byte>, buf: seq<byte>, sink: S, deliver: (S, Event) -> Option<S>)
    requires |data| > 0 && Step(p, data[0]).1.Signal?
    ensures var (p1, e) := Step(p, data[0]);
            Flush(sink, buf, deliver).None? ==> Run(p, data, buf, sink, deliver) == Ran(p1, sink, true)
    ensures var (p1, e) := Step(p, data[0]);
            var f := Flush(sink, buf, deliver);
            f.Some? && deliver(f.value, e.event).None? ==> Run(p, data, buf, sink, deliver) == Ran(p1, f.value, true)
    ensures var (p1, e) := Step(p, data[0]);
            var f := Flush(sink, buf, deliver);
            f.Some? && deliver(f.value, e.event).Some? ==>
              Run(p, data, buf, sink, deliver) == Run(e.after, data[1..], [], deliver(f.value, e.event).value, deliver)
  {
  }

  lemma RecordFlush(evs: seq<Event>, buf: seq<byte>)
    ensures Flush(evs, buf, Record) == Some(evs + Flushed(buf))
  {
    if |buf| > 0 {
      assert Flush(evs, buf, Record) == Record(evs, Application(buf));
    } else {
      assert evs + Flushed(buf) == evs;
    }
  }

  lemma RunSignal(p: ParseState, b: byte, rest: seq<byte>, buf: seq<byte>, evs: seq<Event>)
    requires Step(p, b).1.Signal?
    ensures Run(p, [b] + rest, buf, evs, Record)
         == Run(Step(p, b).1.after, rest, [], evs + Flushed(buf) + [Step(p, b).1.event], Record)
  {
    assert ([b] + rest)[0] == b && ([b] + rest)[1..] == rest;
    RecordFlush(evs, buf);
    assert Record(evs + Flushed(buf), Step(p, b).1.event) == Some(evs + Flushed(buf) + [Step(p, b).1.event]);
  }

  // ---------------------------------------------------------------------
  // Framing of the individual sequences

  lemma {:induction false} PlainRun(p: ParseState, data: seq<byte>, buf: seq<byte>, evs: seq<Event>)
    requires p.tstate == Data
    requires forall i :: 0 <= i < |data| ==> data[i] != IAC && data[i] != CR
    ensures Run(p, data, buf, evs, Record) == Ran(p, evs + Flushed(buf + data), false)
    decreases |data|
  {
    if |data| > 0 {
      assert data == [data[0]] + data[1..];
      RunAppend(p, data[0], data[1..], buf, evs, Record);
      PlainRun(p, data[1..], buf + [data[0]], evs);
      assert buf + [data[0]] + data[1..] == buf + data;
    } else {
      RecordFlush(evs, buf);
      assert buf + data == buf;
    }
  }

  /** Bytes other than IAC and CR, fed in the DATA state, only extend the
      application buffer, whatever receives the events. */
  lemma {:induction false} PlainPrefix<S>(p: ParseState, data: seq<byte>, rest: seq<byte>, buf: seq<byte>, sink: S, deliver: (S, Event) -> Option<S>)
    requires p.tstate == Data
    requires forall i :: 0 <= i < |data| ==> data[i] != IAC && data[i] != CR
    ensures Run(p, data + rest, buf, sink, deliver) == Run(p, rest, buf + data, sink, deliver)
    decreases |data|
  {
    if |data| > 0 {
      assert data + rest == [data[0]] + (data[1..] + rest);
      RunAppend(p, data[0], data[1..] + rest, buf, sink, deliver);
      PlainPrefix(p, data[1..], rest, buf + [data[0]], sink, deliver);
      assert buf + [data[0]] + data[1..] == buf + data;
    } else {
      assert data + rest == rest && buf + data == buf;
    }
  }

  /** Bytes other than IAC and CR, fed in the DATA state, come out as one
      application event equal to the input, and the state is unchanged. */
  lemma PlainData(p: ParseState, data: seq<byte>)
    requires p.tstate == Data && |data| > 0
    requires forall i :: 0 <= i < |data| ==> data[i] != IAC && data[i] != CR
    ensures Feed(p, data) == Ran(p, [Application(data)], false)
  {
    PlainRun(p, data, [], []);
    assert [] + data == data;
    assert Flushed(data) == [Application(data)];
    assert [] + Flushed(data) == [Application(data)];
  }

  /** `IAC IAC` adds exactly one 0xFF byte to the application buffer and
      hands no event on. */
  lemma DoubledIac<S>(p: ParseState, rest: seq<byte>, buf: seq<byte>, sink: S, deliver: (S, Event) -> Option<S>)
    requires p.tstate == Data
    ensures Run(p, [IAC, IAC] + rest, buf, sink, deliver) == Run(p, rest, buf + [IAC], sink, deliver)
  {
    assert [IAC, IAC] + rest == [IAC] + ([IAC] + rest);
    RunQuiet(p, IAC, [IAC] + rest, buf, sink, deliver);
    RunAppend(p.(tstate := Escaped), IAC, rest, buf, sink, deliver);
  }

  /** RFC 854 line endings: CR LF gives LF, CR NUL gives CR, CR IAC gives
      CR and an escape, and CR before any other byte passes both through. */
  lemma CarriageReturn<S>(p: ParseState, x: byte, rest: seq<byte>, buf: seq<byte>, sink: S, deliver: (S, Event) -> Option<S>)
    requires p.tstate == Data
    ensures x == LF ==> Run(p, [CR, x] + rest, buf, sink, deliver) == Run(p, rest, buf + [LF], sink, deliver)
    ensures x == NUL ==> Run(p, [CR, x] + rest, buf, sink, deliver) == Run(p, rest, buf + [CR], sink, deliver)
    ensures x == IAC ==> Run(p, [CR, x] + rest, buf, sink, deliver) == Run(p.(tstate := Escaped), rest, buf + [CR], sink, deliver)
    ensures x != LF && x != NUL && x != IAC ==>
              Run(p, [CR, x] + rest, buf, sink, deliver) == Run(p, rest, buf + [CR, x], sink, deliver)
  {
    assert [CR, x] + rest == [CR] + ([x] + rest);
    RunQuiet(p, CR, [x] + rest, buf, sink, deliver);
    RunAppend(p.(tstate := Endline), x, rest, buf, sink, deliver);
  }

  /** `IAC <verb> <option>` hands on exactly `Negotiate(verb, option)`,
      after the application bytes gathered before it. */
  lemma NegotiationFrame(p: ParseState, verb: byte, op: byte, rest: seq<byte>, buf: seq<byte>, evs: seq<Event>)
    requires p.tstate == Data && IsVerb(verb)
    ensures Run(p, [IAC, verb, op] + rest, buf, evs, Record)
         == Run(p.(iacCommand := 0), rest, [], evs + Flushed(buf) + [Negotiate(verb, op)], Record)
  {
    assert [IAC, verb, op] + rest == [IAC] + ([verb] + ([op] + rest));
    var p1 := p.(tstate := Escaped);
    RunQuiet(p, IAC, [verb] + ([op] + rest), buf, evs, Record);
    RunQuiet(p1, verb, [op] + rest, buf, evs, Record);
    RunSignal(p1.(tstate := Command, iacCommand := verb), op, rest, buf, evs);
  }

  /** `IAC <c>` for any other command byte hands on `Control(c)`, after the
      application bytes gathered before it. */
  lemma ControlFrame(p: ParseState, c: byte, rest: seq<byte>, buf: seq<byte>, evs: seq<Event>)
    requires p.tstate == Data && c != IAC && c != SB && !IsVerb(c)
    ensures Run(p, [IAC, c] + rest, buf, evs, Record)
         == Run(p, rest, [], evs + Flushed(buf) + [Control(c)], Record)
  {
    assert [IAC, c] + rest == [IAC] + ([c] + rest);
    RunQuiet(p, IAC, [c] + rest, buf, evs, Record);
    RunSignal(p.(tstate := Escaped), c, rest, buf, evs);
  }

  /** Payload bytes inside a subnegotiation are gathered, not emitted. */
  lemma {:induction false} PayloadRun<S>(q: ParseState, payload: seq<byte>, tail: seq<byte>, buf: seq<byte>, sink: S, deliver: (S, Event) -> Option<S>)
    requires q.tstate == InSubnegotiation
    requires forall i :: 0 <= i < |payload| ==> payload[i] != IAC
    ensures Run(q, payload + tail, buf, sink, deliver)
         == Run(q.(negotiateBuffer := q.negotiateBuffer + payload), tail, buf, sink, deliver)
    decreases |payload|
  {
    if |payload| == 0 {
      assert payload + tail == tail;
      assert q.negotiateBuffer + payload == q.negotiateBuffer;
    } else {
      assert payload + tail == [payload[0]] + (payload[1..] + tail);
      RunQuiet(q, payload[0], payload[1..] + tail, buf, sink, deliver);
      var q1 := q.(negotiateBuffer := q.negotiateBuffer + [payload[0]]);
      PayloadRun(q1, payload[1..], tail, buf, sink, deliver);
      assert q1.negotiateBuffer + payload[1..] == q.negotiateBuffer + payload;
    }
  }

  /** `IAC SB <option> <payload> IAC SE`, with no IAC in the payload, hands
      on exactly `Subnegotiate(option, payload)` after the application bytes
      gathered before it, and leaves the subnegotiation buffer empty. */
  lemma SubnegotiationFrame(p: ParseState, op: byte, payload: seq<byte>, rest: seq<byte>, buf: seq<byte>, evs: seq<Event>)
    requires p.tstate == Data && op != IAC
    requires forall i :: 0 <= i < |payload| ==> payload[i] != IAC
    ensures Run(p, [IAC, SB, op] + payload + [IAC, SE] + rest, buf, evs, Record)
         == Run(ParseState(Data, p.iacCommand, [], Some(0)), rest, [], evs + Flushed(buf) + [Subnegotiate(op, payload)], Record)
  {
    var tail := [IAC] + ([SE] + rest);
    assert [IAC, SB, op] + payload + [IAC, SE] + rest == [IAC] + ([SB] + ([op] + (payload + tail)));
    var p1 := p.(tstate := Escaped);
    var p2 := p1.(tstate := Subnegotiation, negotiateBuffer := []);
    RunQuiet(p, IAC, [SB] + ([op] + (payload + tail)), buf, evs, Record);
    RunQuiet(p1, SB, [op] + (payload + tail), buf, evs, Record);
    RunQuiet(p2, op, payload + tail, buf, evs, Record);
    var q := p2.(tstate := InSubnegotiation, negotiateCode := Some(op));
    PayloadRun(q, payload, tail, buf, evs, Record);
    var q1 := q.(negotiateBuffer := q.negotiateBuffer + payload);
    assert q1.negotiateBuffer == payload;
    RunQuiet(q1, IAC, [SE] + rest, buf, evs, Record);
    RunSignal(q1.(tstate := SubEscaped), SE, rest, buf, evs);
  }

  /** After `IAC <x>` with x not SE inside a subnegotiation, x is kept as
      payload, the framer goes back to reading an option code, and the next
      byte replaces the code instead of joining the payload. */
  lemma SubEscapeRereadsCode<S>(q: ParseState, x: byte, y: byte, rest: seq<byte>, buf: seq<byte>, sink: S, deliver: (S, Event) -> Option<S>)
    requires q.tstate == InSubnegotiation && x != SE && y != IAC
    ensures Run(q, [IAC, x, y] + rest, buf, sink, deliver)
         == Run(q.(negotiateBuffer := q.negotiateBuffer + [x], negotiateCode := Some(y)), rest, buf, sink, deliver)
  {
    assert [IAC, x, y] + rest == [IAC] + ([x] + ([y] + rest));
    var q1 := q.(tstate := SubEscaped);
    var q2 := q1.(tstate := Subnegotiation, negotiateBuffer := q.negotiateBuffer + [x]);
    RunQuiet(q, IAC, [x] + ([y] + rest), buf, sink, deliver);
    RunQuiet(q1, x, [y] + rest, buf, sink, deliver);
    RunQuiet(q2, y, rest, buf, sink, deliver);
  }

  /** `IAC SB IAC SE` never reads an option code: on a framer that has never
      seen one it raises, otherwise it reports the stale code (0 after any
      completed subnegotiation) with an empty payload. */
  lemma SubnegotiationWithoutCode(p: ParseState, rest: seq<byte>, buf: seq<byte>, evs: seq<Event>)
    requires p.tstate == Data
    ensures p.negotiateCode.None? ==>
              Run(p, [IAC, SB, IAC, SE] + rest, buf, evs, Record) == Ran(p.(negotiateBuffer := []), evs + Flushed(buf), true)
    ensures p.negotiateCode.Some? ==>
              (Run(p, [IAC, SB, IAC, SE] + rest, buf, evs, Record)
               == Run(p.(negotiateBuffer := [], negotiateCode := Some(0)), rest, [],
                      evs + Flushed(buf) + [Subnegotiate(p.negotiateCode.value, [])], Record))
  {
    assert [IAC, SB, IAC, SE] + rest == [IAC] + ([SB] + ([IAC] + ([SE] + rest)));
    var p1 := p.(tstate := Escaped);
    var p2 := p1.(tstate := Subnegotiation, negotiateBuffer := []);
    var p3 := p2.(tstate := SubEscaped);
    RunQuiet(p, IAC, [SB] + ([IAC] + ([SE] + rest)), buf, evs, Record);
    RunQuiet(p1, SB, [IAC] + ([SE] + rest), buf, evs, Record);
    RunQuiet(p2, IAC, [SE] + rest, buf, evs, Record);
    if p.negotiateCode.None? {
      assert ([SE] + rest)[0] == SE;
      RecordFlush(evs, buf);
    } else {
      RunSignal(p3, SE, rest, buf, evs);
    }
  }

  // ---------------------------------------------------------------------
  // Splitting the input between two calls

  /** Handing on a non-empty application buffer never raises. */
  ghost predicate ApplicationTotal<S(!new)>(deliver: (S, Event) -> Option<S>) {
    forall s: S, x: seq<byte> {:trigger deliver(s, Application(x))} ::
      |x| > 0 ==> deliver(s, Application(x)).Some?
  }

  /** Handing on `x + y` at once does what handing on `x`, then `y`, does. */
  ghost predicate ApplicationSplits<S(!new)>(deliver: (S, Event) -> Option<S>)
    requires ApplicationTotal(deliver)
  {
    forall s: S, x: seq<byte>, y: seq<byte> {:trigger deliver(s, Application(x + y))} ::
      |x| > 0 && |y| > 0 ==>
        deliver(s, Application(x + y)) == deliver(deliver(s, Application(x)).value, Application(y))
  }

  /** Pending application bytes may be handed on early when the receiver
      treats application data as a stream. */
  lemma {:induction false} RunBuffered<S(!new)>(p: ParseState, data: seq<byte>, buf: seq<byte>, sink: S, deliver: (S, Event) -> Option<S>)
    requires ApplicationTotal(deliver) && ApplicationSplits(deliver) && |buf| > 0
    ensures deliver(sink, Application(buf)).Some?
    ensures Run(p, data, buf, sink, deliver) == Run(p, data, [], deliver(sink, Application(buf)).value, deliver)
    decreases |data|
  {
    var s1 := deliver(sink, Application(buf)).value;
    if |data| > 0 {
      var (p1, e) := Step(p, data[0]);
      match e
      case Append(bs) =>
        RunBuffered(p1, data[1..], buf + bs, sink, deliver);
        RunBuffered(p1, data[1..], bs, s1, deliver);
        assert [] + bs == bs;
        assert deliver(sink, Application(buf + bs)) == deliver(s1, Application(bs));
      case Quiet =>
        RunBuffered(p1, data[1..], buf, sink, deliver);
      case Fault =>
      case Signal(ev, p2) =>
    }
  }

  /** A call that raises part-way through a prefix of the input raises at
      the same place when more input follows. */
  lemma {:induction false} RunFaultPrefix<S(!new)>(p: ParseState, a: seq<byte>, b: seq<byte>, buf: seq<byte>, sink: S, deliver: (S, Event) -> Option<S>)
    requires ApplicationTotal(deliver)
    requires Run(p, a, buf, sink, deliver).faulted
    ensures Run(p, a + b, buf, sink, deliver) == Run(p, a, buf, sink, deliver)
    decreases |a|
  {
    if |a| == 0 {
      assert false;
    }
    assert (a + b)[0] == a[0] && (a + b)[1..] == a[1..] + b;
    var (p1, e) := Step(p, a[0]);
    match e
    case Append(bs) => RunFaultPrefix(p1, a[1..], b, buf + bs, sink, deliver);
    case Quiet => RunFaultPrefix(p1, a[1..], b, buf, sink, deliver);
    case Fault =>
    case Signal(ev, p2) =>
      var s := Flush(sink, buf, deliver).value;
      if deliver(s, ev).Some? {
        RunFaultPrefix(p2, a[1..], b, [], deliver(s, ev).value, deliver);
      }
  }

  /** Feeding `a + b` in one call does what feeding `a` and then `b` in two
      calls does, for a receiver that treats application data as a stream. */
  lemma {:induction false} RunSplit<S(!new)>(p: ParseState, a: seq<byte>, b: seq<byte>, buf: seq<byte>, sink: S, deliver: (S, Event) -> Option<S>)
    requires ApplicationTotal(deliver) && ApplicationSplits(deliver)
    requires !Run(p, a, buf, sink, deliver).faulted
    ensures Run(p, a + b, buf, sink, deliver)
         == Run(Run(p, a, buf, sink, deliver).parser, b, [], Run(p, a, buf, sink, deliver).sink, deliver)
    decreases |a|
  {
    if |a| == 0 {
      assert a + b == b;
      if |buf| > 0 {
        RunBuffered(p, b, buf, sink, deliver);
      }
    } else {
      assert (a + b)[0] == a[0] && (a + b)[1..] == a[1..] + b;
      var (p1, e) := Step(p, a[0]);
      match e
      case Append(bs) => RunSplit(p1, a[1..], b, buf + bs, sink, deliver);
      case Quiet => RunSplit(p1, a[1..], b, buf, sink, deliver);
      case Fault =>
      case Signal(ev, p2) =>
        var s := Flush(sink, buf, deliver).value;
        RunSplit(p2, a[1..], b, [], deliver(s, ev).value, deliver);
    }
  }

  /** `f` maps the receiver along with every delivery: delivering to
      `f(s)` is delivering to `s`, then applying `f`. */
  ghost predicate Commutes<S(!new)>(deliver: (S, Event) -> Option<S>, f: S -> S) {
    forall s: S, e: Event {:trigger deliver(f(s), e)} ::
      deliver(f(s), e) == if deliver(s, e).Some? then Some(f(deliver(s, e).value)) else None
  }

  /** A call on `f(sink)` is the call on `sink` with `f` applied to the
      final receiver. */
  lemma {:induction false} RunCommutes<S(!new)>(p: ParseState, data: seq<byte>, buf: seq<byte>, sink: S, deliver: (S, Event) -> Option<S>, f: S -> S)
    requires Commutes(deliver, f)
    ensures var r := Run(p, data, buf, sink, deliver);
            Run(p, data, buf, f(sink), deliver) == Ran(r.parser, f(r.sink), r.faulted)
    decreases |data|
  {
    assert Flush(f(sink), buf, deliver) == if Flush(sink, buf, deliver).Some? then Some(f(Flush(sink, buf, deliver).value)) else None;
    if |data| > 0 {
      var (p1, e) := Step(p, data[0]);
      match e
      case Append(bs) => RunCommutes(p1, data[1..], buf + bs, sink, deliver, f);
      case Quiet => RunCommutes(p1, data[1..], buf, sink, deliver, f);
      case Fault =>
      case Signal(ev, p2) =>
        var fl := Flush(sink, buf, deliver);
        if fl.Some? && deliver(fl.value, ev).Some? {
          assert deliver(f(fl.value), ev) == Some(f(deliver(fl.value, ev).value));
          RunCommutes(p2, data[1..], [], deliver(fl.value, ev).value, deliver, f);
        }
    }
  }

  /** Deliveries never change `key(s)`. */
  ghost predicate Keeps<S(!new), K>(deliver: (S, Event) -> Option<S>, key: S -> K) {
    forall s: S, e: Event {:trigger deliver(s, e)} :: deliver(s, e).Some? ==> key(deliver(s, e).value) == key(s)
  }

  /** Nor does a whole call. */
  lemma {:induction false} RunKeeps<S(!new), K>(p: ParseState, data: seq<byte>, buf: seq<byte>, sink: S, deliver: (S, Event) -> Option<S>, key: S -> K)
    requires Keeps(deliver, key)
    ensures key(Run(p, data, buf, sink, deliver).sink) == key(sink)
    decreases |data|
  {
    if |data| > 0 {
      var (p1, e) := Step(p, data[0]);
      match e
      case Append(bs) => RunKeeps(p1, data[1..], buf + bs, sink, deliver, key);
      case Quiet => RunKeeps(p1, data[1..], buf, sink, deliver, key);
      case Fault =>
      case Signal(ev, p2) =>
        var fl := Flush(sink, buf, deliver);
        if fl.Some? && deliver(fl.value, ev).Some? {
          RunKeeps(p2, data[1..], [], deliver(fl.value, ev).value, deliver, key);
        }
    }
  }

  /** The events of a call seen as a stream: application events dissolve
      into their bytes, every other event stays whole. */
  datatype Piece = AppByte(b: byte) | Whole(event: Event)

  function EventPieces(e: Event): seq<Piece> {
    if e.Application? then seq(|e.data|, i requires 0 <= i < |e.data| => AppByte(e.data[i]))
    else [Whole(e)]
  }

  function Pieces(evs: seq<Event>): seq<Piece> {
    if |evs| == 0 then [] else EventPieces(evs[0]) + Pieces(evs[1..])
  }

  lemma {:induction false} PiecesConcat(x: seq<Event>, y: seq<Event>)
    ensures Pieces(x + y) == Pieces(x) + Pieces(y)
  {
    if |x| > 0 {
      assert (x + y)[0] == x[0] && (x + y)[1..] == x[1..] + y;
      PiecesConcat(x[1..], y);
    } else {
      assert x + y == y;
    }
  }

  function RecordPieces(m: seq<Piece>, e: Event): Option<seq<Piece>> {
    Some(m + EventPieces(e))
  }

  lemma RecordPiecesStreams()
    ensures ApplicationTotal(RecordPieces)
    ensures ApplicationSplits(RecordPieces)
  {
    forall m: seq<Piece>, x: seq<byte>, y: seq<byte> | |x| > 0 && |y| > 0
      ensures RecordPieces(m, Application(x + y)) == RecordPieces(RecordPieces(m, Application(x)).value, Application(y))
    {
      AppPiecesConcat(x, y);
      assert m + EventPieces(Application(x)) + EventPieces(Application(y))
          == m + (EventPieces(Application(x)) + EventPieces(Application(y)));
    }
  }

  lemma AppPiecesConcat(x: seq<byte>, y: seq<byte>)
    ensures EventPieces(Application(x + y)) == EventPieces(Application(x)) + EventPieces(Application(y))
  {
    var l := EventPieces(Application(x + y));
    var r := EventPieces(Application(x)) + EventPieces(Application(y));
    assert |l| == |r|;
    forall i | 0 <= i < |l| ensures l[i] == r[i] {
      if i < |x| {
        assert r[i] == AppByte(x[i]);
      } else {
        assert r[i] == EventPieces(Application(y))[i - |x|];
      }
    }
  }

  lemma PiecesSingle(e: Event)
    ensures Pieces([e]) == EventPieces(e)
  {
    assert [e][1..] == [];
  }

  lemma PiecesFlush(m: seq<Piece>, evs: seq<Event>, buf: seq<byte>)
    requires m == Pieces(evs)
    ensures Flush(m, buf, RecordPieces) == Some(Pieces(evs + Flushed(buf)))
  {
    if |buf| > 0 {
      assert Flush(m, buf, RecordPieces) == RecordPieces(m, Application(buf));
      PiecesConcat(evs, [Application(buf)]);
      PiecesSingle(Application(buf));
    } else {
      assert evs + Flushed(buf) == evs;
    }
  }

  /** Recording events and recording their pieces follow the same course. */
  lemma {:induction false} PiecesOfRun(p: ParseState, data: seq<byte>, buf: seq<byte>, evs: seq<Event>)
    ensures Run(p, data, buf, evs, Record).parser == Run(p, data, buf, Pieces(evs), RecordPieces).parser
    ensures Run(p, data, buf, evs, Record).faulted == Run(p, data, buf, Pieces(evs), RecordPieces).faulted
    ensures Pieces(Run(p, data, buf, evs, Record).sink) == Run(p, data, buf, Pieces(evs), RecordPieces).sink
    decreases |data|
  {
    RecordFlush(evs, buf);
    PiecesFlush(Pieces(evs), evs, buf);
    if |data| > 0 {
      var (p1, e) := Step(p, data[0]);
      match e
      case Append(bs) => PiecesOfRun(p1, data[1..], buf + bs, evs);
      case Quiet => PiecesOfRun(p1, data[1..], buf, evs);
      case Fault =>
      case Signal(ev, p2) =>
        var evs1 := evs + Flushed(buf);
        PiecesConcat(evs1, [ev]);
        PiecesSingle(ev);
        assert Record(evs1, ev) == Some(evs1 + [ev]);
        assert RecordPieces(Pieces(evs1), ev) == Some(Pieces(evs1 + [ev]));
        PiecesOfRun(p2, data[1..], [], evs1 + [ev]);
    }
  }

  /** What a recording run records does not depend on what was recorded
      before it. */
  lemma {:induction false} RecordPrefix(p: ParseState, data: seq<byte>, buf: seq<byte>, evs: seq<Event>)
    ensures Run(p, data, buf, evs, Record).parser == Run(p, data, buf, [], Record).parser
    ensures Run(p, data, buf, evs, Record).faulted == Run(p, data, buf, [], Record).faulted
    ensures Run(p, data, buf, evs, Record).sink == evs + Run(p, data, buf, [], Record).sink
    decreases |data|
  {
    RecordFlush(evs, buf);
    RecordFlush([], buf);
    if |data| > 0 {
      var (p1, e) := Step(p, data[0]);
      match e
      case Append(bs) => RecordPrefix(p1, data[1..], buf + bs, evs);
      case Quiet => RecordPrefix(p1, data[1..], buf, evs);
      case Fault =>
      case Signal(ev, p2) =>
        RecordPrefix(p2, data[1..], [], evs + Flushed(buf) + [ev]);
        RecordPrefix(p2, data[1..], [], [] + Flushed(buf) + [ev]);
        assert evs + Flushed(buf) + [ev] == evs + ([] + Flushed(buf) + [ev]);
    }
  }

  /** Splitting the input of one call into two calls: the parse state left
      behind and the stream of application bytes and events are the same;
      only the places where application data is cut differ. A call that
      raises within the first part raises the same way on the whole. */
  lemma FeedSplit(p: ParseState, a: seq<byte>, b: seq<byte>)
    ensures Feed(p, a).faulted ==> Feed(p, a + b) == Feed(p, a)
    ensures !Feed(p, a).faulted ==>
              var r2 := Feed(Feed(p, a).parser, b);
              && Feed(p, a + b).parser == r2.parser
              && Feed(p, a + b).faulted == r2.faulted
              && Pieces(Feed(p, a + b).sink) == Pieces(Feed(p, a).sink) + Pieces(r2.sink)
  {
    var r := Feed(p, a);
    assert ApplicationTotal(Record) by {
      forall m: seq<Event>, x: seq<byte> | |x| > 0 ensures Record(m, Application(x)).Some? { }
    }
    if r.faulted {
      RunFaultPrefix(p, a, b, [], [], Record);
    } else {
      RecordPiecesStreams();
      PiecesOfRun(p, a + b, [], []);
      PiecesOfRun(p, a, [], []);
      assert Pieces([]) == [];
      RunSplit(p, a, b, [], [], RecordPieces);
      var q := Run(p, a, [], [], RecordPieces);
      assert q.sink == Pieces(r.sink);
      PiecesPrefix(q.parser, b, q.sink);
      PiecesOfRun(r.parser, b, [], []);
    }
  }

  lemma {:induction false} PiecesPrefix(p: ParseState, data: seq<byte>, m: seq<Piece>)
    ensures Run(p, data, [], m, RecordPieces).parser == Run(p, data, [], [], RecordPieces).parser
    ensures Run(p, data, [], m, RecordPieces).faulted == Run(p, data, [], [], RecordPieces).faulted
    ensures Run(p, data, [], m, RecordPieces).sink == m + Run(p, data, [], [], RecordPieces).sink
  {
    PiecesPrefixBuf(p, data, [], m);
  }

  lemma {:induction false} PiecesPrefixBuf(p: ParseState, data: seq<byte>, buf: seq<byte>, m: seq<Piece>)
    ensures Run(p, data, buf, m, RecordPieces).parser == Run(p, data, buf, [], RecordPieces).parser
    ensures Run(p, data, buf, m, RecordPieces).faulted == Run(p, data, buf, [], RecordPieces).faulted
    ensures Run(p, data, buf, m, RecordPieces).sink == m + Run(p, data, buf, [], RecordPieces).sink
    decreases |data|
  {
    var fm := if |buf| > 0 then EventPieces(Application(buf)) else [];
    if |buf| > 0 {
      assert Flush(m, buf, RecordPieces) == RecordPieces(m, Application(buf));
      assert Flush([], buf, RecordPieces) == RecordPieces([], Application(buf));
    } else {
      assert m + fm == m && [] + fm == [];
    }
    assert Flush(m, buf, RecordPieces) == Some(m + fm);
    assert Flush([], buf, RecordPieces) == Some([] + fm);
    if |data| > 0 {
      var (p1, e) := Step(p, data[0]);
      match e
      case Append(bs) => PiecesPrefixBuf(p1, data[1..], buf + bs, m);
      case Quiet => PiecesPrefixBuf(p1, data[1..], buf, m);
      case Fault =>
      case Signal(ev, p2) =>
        PiecesPrefixBuf(p2, data[1..], [], m + fm + EventPieces(ev));
        PiecesPrefixBuf(p2, data[1..], [], [] + fm + EventPieces(ev));
        assert m + fm + EventPieces(ev) == m + ([] + fm + EventPieces(ev));
    }
  }
}
