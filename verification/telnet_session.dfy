/** The telnet protocol object (`TelnetAsgiProtocol`) as one value: the
    framer state, the installed option handlers, the transform registries,
    the line being typed and the negotiated client description. Reading
    bytes runs the framer with the event switchboard
    (`handle_protocol_event`) as the receiver of its events. */
module TelnetSession {
  import opened Wrappers
  import opened TelnetCodes
  import opened TelnetFramer
  import opened TelnetNegotiation
  import opened TelnetTransforms
  import opened TelnetOutbound
  import opened TelnetHandlers
  import opened TelnetLines

  /** One installed option handler: its kind, its negotiation flags and,
      for TTYPE, its rounds. */
  datatype Handler = Handler(kind: Kind, sides: Sides, rounds: TtypeRounds)

  /** Everything but the framer state. `handlers` is `handler_codes`. */
  datatype Core = Core(handlers: map<byte, Handler>, readers: seq<Transform>, writers: seq<Transform>, lineBuffer: seq<byte>, client: Client)

  /** What the protocol does visibly while handling input: hand an input
      to the application (the bytes `user_command` receives), write bytes
      to the transport after the write transforms (`send_data`), or queue
      an outgoing event (`from_app.put`). */
  datatype Output = ToApp(command: seq<byte>) | Write(data: seq<byte>) | Queue(event: OutEvent)

  /** What the model leaves abstract: the TTYPE heuristics and what the
      registered transforms do to bytes. */
  datatype Env = Env(heuristics: Heuristics, readApply: (Transform, seq<byte>) -> seq<byte>, writeApply: (Transform, seq<byte>) -> seq<byte>)

  function Inputs(ins: seq<Input>): (r: seq<Output>)
    ensures |r| == |ins| && forall i :: 0 <= i < |ins| ==> r[i] == ToApp(UserCommand(ins[i]))
  {
    seq(|ins|, i requires 0 <= i < |ins| => ToApp(UserCommand(ins[i])))
  }

  function Queued(evs: seq<OutEvent>): (r: seq<Output>)
    ensures |r| == |evs| && forall i :: 0 <= i < |evs| ==> r[i] == Queue(evs[i])
  {
    seq(|evs|, i requires 0 <= i < |evs| => Queue(evs[i]))
  }

  function EffectOf(k: Kind, hook: Option<Hook>): HookEffect {
    if hook.Some? then Effect(k, hook.value) else NoEffect
  }

  /** `execute_iac_negotiation` for an installed handler: the handler's
      flags move as the negotiation rules say, a bare DO goes straight to
      the transport when one is due, and the hook's effects follow. */
  function OnVerb(env: Env, c: Core, op: byte, verb: byte): (r: (Core, seq<Output>))
    requires op in c.handlers
    ensures r.0.client == c.client && r.0.lineBuffer == c.lineBuffer && r.0.readers == c.readers
    ensures r.0.handlers == c.handlers[op := c.handlers[op].(sides := Receive(c.handlers[op].sides, verb).sides)]
    ensures WellFormed(c.writers) ==> WellFormed(r.0.writers)
    ensures !IsVerb(verb) ==> r == (c, [])
  {
    var h := c.handlers[op];
    var react := Receive(h.sides, verb);
    var eff := EffectOf(h.kind, react.hook);
    var writers := if eff.unregister.Some? then Remove(c.writers, eff.unregister.value) else c.writers;
    var direct := if react.sendDo then [Write(Pipeline(c.writers, [DO], env.writeApply))] else [];
    assert !IsVerb(verb) ==>
             h.(sides := react.sides) == h && c.handlers[op := h] == c.handlers && direct + Queued(eff.queued) == [];
    (c.(handlers := c.handlers[op := h.(sides := react.sides)], writers := writers), direct + Queued(eff.queued))
  }

  /** `sub_negotiate` for an installed handler: NAWS updates the geometry
      (the corrected `NawsReceive`; see `NawsFirstReportAsWritten` for
      where it meets the code as written), TTYPE runs its rounds (and raises on an empty payload), and the
      other handlers ignore the payload. */
  function OnSubnegotiation(env: Env, c: Core, op: byte, data: seq<byte>): (r: Option<(Core, seq<Output>)>)
    requires op in c.handlers
    ensures r.None? <==> c.handlers[op].kind == Ttype && TtypeReceive(c.handlers[op].rounds, c.client, data, env.heuristics).Err?
    ensures r.Some? ==> r.value.0.writers == c.writers && r.value.0.readers == c.readers && r.value.0.lineBuffer == c.lineBuffer
    ensures r.Some? ==> r.value.0.handlers.Keys == c.handlers.Keys
    ensures c.handlers[op].kind == Naws ==> r == Some((c.(client := NawsReceive(c.client, data)), []))
    ensures c.handlers[op].kind == Mccp2 || c.handlers[op].kind == Sga ==> r == Some((c, []))
  {
    var h := c.handlers[op];
    match h.kind
    case Naws => Some((c.(client := NawsReceive(c.client, data)), []))
    case Ttype =>
      (match TtypeReceive(h.rounds, c.client, data, env.heuristics)
       case Err(_) => None
       case Ok(st) =>
         Some((c.(handlers := c.handlers[op := h.(rounds := st.rounds)], client := st.client),
               if st.request then [Queue(TtypeRequest)] else [])))
    case _ => Some((c, []))
  }

  /** `handle_protocol_event`: `None` when handling the event raised. */
  function Dispatch(env: Env, c: Core, e: Event): (r: Option<(Core, seq<Output>)>)
    ensures e.Control? ==> r == Some((c, []))
    ensures e.Negotiate? && e.option !in c.handlers ==> r == Some((c, []))
    ensures e.Subnegotiate? && e.option !in c.handlers ==> r == Some((c, []))
    ensures r.Some? ==> r.value.0.readers == c.readers
    ensures r.Some? && WellFormed(c.writers) ==> WellFormed(r.value.0.writers)
  {
    match e
    case Application(data) =>
      var (buf, ins) := Split(c.lineBuffer, data);
      Some((c.(lineBuffer := buf), Inputs(ins)))
    case Control(_) => Some((c, []))
    case Negotiate(verb, op) =>
      if op in c.handlers then Some(OnVerb(env, c, op, verb)) else Some((c, []))
    case Subnegotiate(op, data) =>
      if op in c.handlers then OnSubnegotiation(env, c, op, data) else Some((c, []))
  }

  /** The protocol object as the receiver of framer events, with the
      outputs so far. */
  datatype Sink = Sink(core: Core, out: seq<Output>)

  function Deliver(env: Env, s: Sink, e: Event): Option<Sink> {
    match Dispatch(env, s.core, e)
    case None => None
    case Some((c, o)) => Some(Sink(c, s.out + o))
  }

  function Deliverer(env: Env): (Sink, Event) -> Option<Sink> {
    (s: Sink, e: Event) => Deliver(env, s, e)
  }

  datatype Session = Session(parser: ParseState, core: Core)

  /** The result of one `handle_reader` call. */
  datatype Received = Received(session: Session, out: seq<Output>, faulted: bool)

  /** `handle_reader`: the read transforms, then the framer with the
      switchboard receiving its events. */
  function ReadBytes(env: Env, s: Session, data: seq<byte>): Received {
    var raw := Pipeline(s.core.readers, data, env.readApply);
    var r := Run(s.parser, raw, [], Sink(s.core, []), Deliverer(env));
    Received(Session(r.parser, r.sink.core), r.sink.out, r.faulted)
  }

  // ---------------------------------------------------------------------
  // Construction and start-up

  function InstallAll(kinds: seq<Kind>): map<byte, Handler> {
    if |kinds| == 0 then map[]
    else InstallAll(kinds[1..])[Code(kinds[0]) := Handler(kinds[0], Fresh, FreshRounds)]
  }

  /** A newly connected protocol object. */
  function NewSession(client: Client): Session {
    Session(Initial, Core(InstallAll(Installed), [], [], [], client))
  }

  /** `start` of each handler in turn: the offers each makes, as outgoing
      events. */
  function StartAll(c: Core, kinds: seq<Kind>): (Core, seq<OutEvent>)
    decreases |kinds|
  {
    if |kinds| == 0 then (c, [])
    else
      var k := kinds[0];
      var op := Code(k);
      if op in c.handlers then
        var (sides, verbs) := Start(c.handlers[op].sides, WantsWill(k), WantsDo(k));
        var c1 := c.(handlers := c.handlers[op := c.handlers[op].(sides := sides)]);
        var (c2, evs) := StartAll(c1, kinds[1..]);
        (c2, seq(|verbs|, i requires 0 <= i < |verbs| => NegotiateOut(verbs[i], op)) + evs)
      else StartAll(c, kinds[1..])
  }

  /** `start_negotiation`. */
  function StartNegotiation(s: Session): (Session, seq<OutEvent>) {
    var (c, evs) := StartAll(s.core, Installed);
    (s.(core := c), evs)
  }

  /** A new connection offers WILL MCCP2, WILL SGA, DO NAWS and DO TTYPE, in
      that order, and every handler then awaits its answer. */
  lemma StartOffers(client: Client)
    ensures var (s, evs) := StartNegotiation(NewSession(client));
            evs == [NegotiateOut(WILL, MCCP2), NegotiateOut(WILL, SGA), NegotiateOut(DO, NAWS), NegotiateOut(DO, TTYPE)]
            && s.core.handlers.Keys == {MCCP2, SGA, NAWS, TTYPE}
            && forall op :: op in s.core.handlers ==>
                 s.core.handlers[op].sides == Sides(OptionState(false, true), OptionState(false, false))
                 && Code(s.core.handlers[op].kind) == op
  {
  }

  // ---------------------------------------------------------------------
  // Reading in pieces

  /** Application data never raises in the switchboard, and handing it on
      in two pieces does what handing it on at once does: line splitting
      is a stream operation. */
  lemma DelivererStreams(env: Env)
    ensures ApplicationTotal(Deliverer(env))
    ensures ApplicationSplits(Deliverer(env))
  {
    var d := Deliverer(env);
    forall s: Sink, x: seq<byte> | |x| > 0
      ensures d(s, Application(x)).Some?
    {
      DeliverApplication(env, s, x);
    }
    forall s: Sink, x: seq<byte>, y: seq<byte> | |x| > 0 && |y| > 0
      ensures d(s, Application(x + y)) == d(d(s, Application(x)).value, Application(y))
    {
      DeliverConcat(env, s, x, y);
    }
  }

  /** One instance of the stream property. */
  lemma DeliverConcat(env: Env, s: Sink, x: seq<byte>, y: seq<byte>)
    ensures Deliver(env, s, Application(x)).Some?
    ensures Deliver(env, s, Application(x + y)) == Deliver(env, Deliver(env, s, Application(x)).value, Application(y))
  {
    var buf := s.core.lineBuffer;
    SplitConcat(buf, x, y);
    var (b1, i1) := Split(buf, x);
    var (b2, i2) := Split(b1, y);
    var s1 := Sink(s.core.(lineBuffer := b1), s.out + Inputs(i1));
    var s2 := Sink(s.core.(lineBuffer := b2), s.out + Inputs(i1 + i2));
    DeliverApplication(env, s, x);
    assert Deliver(env, s, Application(x)) == Some(s1);
    DeliverApplication(env, s1, y);
    InputsConcat(i1, i2);
    assert s1.out + Inputs(i2) == s2.out;
    assert Deliver(env, s1, Application(y)) == Some(s2);
    DeliverApplication(env, s, x + y);
    assert Deliver(env, s, Application(x + y)) == Some(s2);
  }

  /** Line inputs convert piecewise. */
  lemma InputsConcat(a: seq<Input>, b: seq<Input>)
    ensures Inputs(a + b) == Inputs(a) + Inputs(b)
  {
  }

  /** Application data goes to the line splitter and its lines are
      handed on, in order. */
  lemma DeliverApplication(env: Env, s: Sink, x: seq<byte>)
    ensures var (buf, ins) := Split(s.core.lineBuffer, x);
            Deliver(env, s, Application(x)) == Some(Sink(s.core.(lineBuffer := buf), s.out + Inputs(ins)))
  {
  }

  /** The outputs already produced in front of the receiver. */
  function Behind(o: seq<Output>): Sink -> Sink {
    (s: Sink) => Sink(s.core, o + s.out)
  }

  /** The switchboard never looks at the outputs already produced. */
  lemma DelivererCommutes(env: Env, o: seq<Output>)
    ensures Commutes(Deliverer(env), Behind(o))
  {
    forall s: Sink, e: Event
      ensures Deliverer(env)(Behind(o)(s), e)
           == if Deliverer(env)(s, e).Some? then Some(Behind(o)(Deliverer(env)(s, e).value)) else None
    {
      DeliverBehind(env, o, s, e);
    }
  }

  lemma DeliverBehind(env: Env, o: seq<Output>, s: Sink, e: Event)
    ensures Deliver(env, Sink(s.core, o + s.out), e)
         == if Deliver(env, s, e).Some? then Some(Sink(Deliver(env, s, e).value.core, o + Deliver(env, s, e).value.out)) else None
  {
    var d := Dispatch(env, s.core, e);
    if d.Some? {
      assert o + s.out + d.value.1 == o + (s.out + d.value.1);
    }
  }

  /** The switchboard never changes the read transforms. */
  lemma DelivererKeepsReaders(env: Env)
    ensures Keeps(Deliverer(env), (s: Sink) => s.core.readers)
  {
    forall s: Sink, e: Event | Deliverer(env)(s, e).Some?
      ensures Deliverer(env)(s, e).value.core.readers == s.core.readers
    {
    }
  }

  /** A call started with outputs already present adds the same outputs
      after them, and no call changes the read transforms. */
  lemma RunOutPrefix(env: Env, p: ParseState, data: seq<byte>, buf: seq<byte>, c: Core, o: seq<Output>)
    ensures var r0 := Run(p, data, buf, Sink(c, []), Deliverer(env));
            Run(p, data, buf, Sink(c, o), Deliverer(env)) == Ran(r0.parser, Sink(r0.sink.core, o + r0.sink.out), r0.faulted)
            && r0.sink.core.readers == c.readers
  {
    DelivererCommutes(env, o);
    DelivererKeepsReaders(env);
    RunCommutes(p, data, buf, Sink(c, []), Deliverer(env), Behind(o));
    RunKeeps(p, data, buf, Sink(c, []), Deliverer(env), (s: Sink) => s.core.readers);
    assert Behind(o)(Sink(c, [])) == Sink(c, o);
  }

  /** Input split between two reads gives what it gives in one read, as
      long as no read transform is registered (none is: MCCP3, the only
      handler that registers one, is not installed). A read that raises
      part-way ends the same way when more input follows. */
  lemma ReadSplit(env: Env, s: Session, a: seq<byte>, b: seq<byte>)
    requires s.core.readers == []
    ensures var first := ReadBytes(env, s, a);
            first.faulted ==> ReadBytes(env, s, a + b) == first
    ensures var first := ReadBytes(env, s, a);
            !first.faulted ==>
              first.session.core.readers == []
              && var second := ReadBytes(env, first.session, b);
                 ReadBytes(env, s, a + b) == Received(second.session, first.out + second.out, second.faulted)
  {
    var d := Deliverer(env);
    DelivererStreams(env);
    var sink := Sink(s.core, []);
    var r1 := Run(s.parser, a, [], sink, d);
    RunOutPrefix(env, s.parser, a, [], s.core, []);
    if r1.faulted {
      RunFaultPrefix(s.parser, a, b, [], sink, d);
    } else {
      RunSplit(s.parser, a, b, [], sink, d);
      RunOutPrefix(env, r1.parser, b, [], r1.sink.core, r1.sink.out);
    }
  }

  // ---------------------------------------------------------------------
  // Negotiation through the switchboard

  /** Verbs and subnegotiations for an option no handler is installed for
      are dropped: nothing changes and nothing is sent. */
  lemma UnknownOptionIgnored(env: Env, s: Session, verb: byte, op: byte)
    requires s.parser.tstate == Data && s.core.readers == [] && IsVerb(verb)
    requires op !in s.core.handlers
    ensures ReadBytes(env, s, [IAC, verb, op]) == Received(Session(s.parser.(iacCommand := 0), s.core), [], false)
  {
    var d := Deliverer(env);
    var sink := Sink(s.core, []);
    var p1 := s.parser.(tstate := Escaped);
    var p2 := p1.(tstate := Command, iacCommand := verb);
    assert [IAC, verb, op] == [IAC] + ([verb] + [op]);
    RunQuiet(s.parser, IAC, [verb] + [op], [], sink, d);
    RunQuiet(p1, verb, [op], [], sink, d);
    RunSignalAny(p2, [op], [], sink, d);
    assert d(sink, Negotiate(verb, op)) == Some(Sink(s.core, [] + []));
    assert [op][1..] == [];
  }

  /** The handler installed under `op`, with the given flags. */
  predicate HasHandler(c: Core, op: byte, k: Kind, sides: Sides) {
    op in c.handlers && c.handlers[op].kind == k && c.handlers[op].sides == sides
  }

  /** Flags after the start-up offer. */
  const Offered: Sides := Sides(OptionState(false, true), OptionState(false, false))

  /** A client accepting MCCP2 makes the server queue the compression start
      marker, whose callback registers the compressing write transform. */
  lemma Mccp2Accepted(env: Env, c: Core)
    requires HasHandler(c, MCCP2, Mccp2, Offered)
    ensures OnVerb(env, c, MCCP2, DO).1 == [Queue(SubnegotiateOut(MCCP2, [], Some(Mccp2Transform)))]
    ensures OnVerb(env, c, MCCP2, DO).0.handlers[MCCP2].sides.us == OptionState(true, false)
  {
  }

  /** A client agreeing to send its terminal type makes the server queue the
      first TTYPE request. */
  lemma TtypeAccepted(env: Env, c: Core)
    requires HasHandler(c, TTYPE, Ttype, Offered)
    ensures OnVerb(env, c, TTYPE, WILL).1 == [Queue(TtypeRequest)]
    ensures OnVerb(env, c, TTYPE, WILL).0.handlers[TTYPE].sides == Sides(OptionState(false, false), OptionState(true, false))
  {
  }

  /** A WILL nobody asked for is answered by writing the single DO byte,
      without IAC or option code. */
  lemma UnsolicitedWillSendsBareDo(env: Env, c: Core, op: byte, k: Kind)
    requires HasHandler(c, op, k, Fresh) && (k == Sga || k == Naws)
    ensures OnVerb(env, c, op, WILL).1 == [Write(Pipeline(c.writers, [DO], env.writeApply))]
  {
    assert [Write(Pipeline(c.writers, [DO], env.writeApply))] + Queued([]) == [Write(Pipeline(c.writers, [DO], env.writeApply))];
  }

  /** A window-size report reaches the client description (through the
      corrected NAWS update). */
  lemma NawsThroughSwitchboard(env: Env, c: Core)
    requires NAWS in c.handlers && c.handlers[NAWS].kind == Naws
    ensures Dispatch(env, c, Subnegotiate(NAWS, [0, 80, 0, 24])) == Some((c.(client := c.client.(width := 80, height := 24)), []))
    ensures Dispatch(env, c, Subnegotiate(NAWS, [0, 80, 0])) == Some((c, []))
  {
  }

  /** On a new connection the corrected NAWS handling and the code as
      written (which compares against the geometry the handler copied at
      construction) agree: they part only after the client's size has
      changed once. */
  lemma NawsFirstReportAsWritten(env: Env, client: Client, data: seq<byte>)
    ensures var c := NewSession(client).core;
            Dispatch(env, c, Subnegotiate(NAWS, data))
              == Some((c.(client := NawsReceiveAsWritten(NawsHandler(client.width, client.height), client, data)), []))
  {
    var c := NewSession(client).core;
    assert NAWS in c.handlers && c.handlers[NAWS].kind == Naws;
    NawsAsWrittenAgreesInitially(NawsHandler(client.width, client.height), client, data);
  }

  /** An empty TTYPE payload raises, ending the read. */
  lemma EmptyTtypeRaises(env: Env, c: Core)
    requires TTYPE in c.handlers && c.handlers[TTYPE].kind == Ttype
    ensures Dispatch(env, c, Subnegotiate(TTYPE, [])) == None
  {
  }

  /** A typed line with CR LF arrives at the application whole. */
  lemma TypedLine(env: Env, s: Session, text: seq<byte>)
    requires s.parser.tstate == Data && s.core.readers == [] && s.core.lineBuffer == []
    requires Clean(text) && forall i :: 0 <= i < |text| ==> text[i] != IAC && text[i] != CR
    ensures ReadBytes(env, s, text + [CR, LF]) == Received(s, [ToApp(text)], false)
  {
    var d := Deliverer(env);
    var sink := Sink(s.core, []);
    PlainPrefix(s.parser, text, [CR, LF], [], sink, d);
    assert [CR, LF] == [CR, LF] + [];
    CarriageReturn(s.parser, LF, [], [] + text, sink, d);
    assert [] + text + [LF] == text + [LF];
    OneLine(text);
    assert d(sink, Application(text + [LF])) == Some(Sink(s.core.(lineBuffer := []), [] + Inputs([Line(text)])));
    assert s.core.(lineBuffer := []) == s.core;
  }

  /** A keepalive reaches the application as the command `IDLE`: the
      application cannot tell it from a typed line `IDLE`. */
  lemma KeepaliveLooksTyped(env: Env, s: Session)
    requires s.parser.tstate == Data && s.core.readers == [] && s.core.lineBuffer == []
    ensures ReadBytes(env, s, [NUL]) == Received(s, [ToApp(IdleCommand)], false)
    ensures ReadBytes(env, s, IdleCommand + [CR, LF]) == Received(s, [ToApp(IdleCommand)], false)
  {
    var d := Deliverer(env);
    var sink := Sink(s.core, []);
    var empty: seq<byte> := [];
    var one: seq<byte> := [NUL];
    var out := [ToApp(IdleCommand)];
    // the framer hands the keepalive on as application data
    assert Step(s.parser, NUL) == (s.parser, Append(one));
    RunAppend(s.parser, NUL, [], [], sink, d);
    assert one == [NUL] + [] && empty + one == one;
    // the line splitter turns it into the idle command
    assert one[1..] == empty && Next(empty, NUL) == empty;
    assert Split(empty, empty) == (empty, []);
    assert Emitted(empty, NUL) + [] == [Idle];
    assert Split(empty, one) == (empty, [Idle]);
    DeliverApplication(env, sink, one);
    assert s.core.(lineBuffer := empty) == s.core;
    assert Inputs([Idle]) == out && [] + out == out;
    assert Flush(sink, one, d) == Some(Sink(s.core, out));
    assert Pipeline(s.core.readers, one, env.readApply) == one;
    TypedLine(env, s, IdleCommand);
  }
}
