/** Outbound traffic of the telnet protocol (`handle_event`, `send_text`,
    `send_data`): the three kinds of outgoing event, their bytes on the
    wire, the write-transform pipeline they pass through, and the callback
    an event may carry. */
module TelnetOutbound {
  import opened Wrappers
  import opened TelnetCodes
  import opened TelnetTransforms
  import TelnetFramer

  /** An outgoing event. The only callback any handler attaches registers a
      write transform (MCCP2's `add_transform`), so a callback is modelled
      as the transform it registers. */
  datatype OutEvent =
    | TextOut(text: string)
    | NegotiateOut(command: byte, op: byte)
    | SubnegotiateOut(op: byte, data: seq<byte>, callback: Option<Transform>)

  predicate IsAscii(text: string) {
    forall i :: 0 <= i < |text| ==> text[i] as int < 128
  }

  /** `str.encode("ascii")`. */
  function EncodeAscii(text: string): (r: Result<seq<byte>>)
    ensures r.Ok? <==> IsAscii(text)
    ensures r.Ok? ==> |r.value| == |text| && forall i :: 0 <= i < |text| ==> r.value[i] == text[i] as int
    ensures r.Err? ==> r.error == UnicodeEncodeError
  {
    if IsAscii(text) then Ok(seq(|text|, i requires 0 <= i < |text| => text[i] as int))
    else Err(UnicodeEncodeError)
  }

  /** The bytes an event is written as, before the write transforms.
      Subnegotiation data is written as given, without doubling IAC. */
  function Wire(e: OutEvent): (r: Result<seq<byte>>)
    ensures e.NegotiateOut? ==> r == Ok([IAC, e.command, e.op])
    ensures e.SubnegotiateOut? ==> r == Ok([IAC, SB, e.op] + e.data + [IAC, SE])
    ensures e.TextOut? ==> r == EncodeAscii(e.text)
  {
    match e
    case TextOut(text) => EncodeAscii(text)
    case NegotiateOut(command, op) => Ok([IAC, command, op])
    case SubnegotiateOut(op, data, _) => Ok([IAC, SB, op] + data + [IAC, SE])
  }

  function CallbackOf(e: OutEvent): Option<Transform> {
    if e.SubnegotiateOut? then e.callback else None
  }

  /** `handle_event`: the event's bytes go through the write transforms as
      they stand, and only afterwards does the callback run. The result is
      the bytes handed to the transport and the new write registry. */
  function HandleEvent(writes: seq<Transform>, e: OutEvent, apply: (Transform, seq<byte>) -> seq<byte>): (r: Result<(seq<byte>, seq<Transform>)>)
    ensures r.Ok? <==> Wire(e).Ok?
    ensures r.Ok? ==> r.value.0 == Pipeline(writes, Wire(e).value, apply)
    ensures r.Ok? && WellFormed(writes) ==> WellFormed(r.value.1)
    ensures r.Ok? ==> forall t :: t in r.value.1 <==> t in writes || CallbackOf(e) == Some(t)
  {
    var bytes :- Wire(e);
    var sent := Pipeline(writes, bytes, apply);
    match CallbackOf(e)
    case None => Ok((sent, writes))
    case Some(t) => Ok((sent, Add(writes, t)))
  }

  /** An event that registers a transform is itself written without it:
      with an empty registry, the MCCP2 start marker goes out as plain
      bytes, and the registry then holds exactly that transform. */
  lemma CallbackRunsAfterSending(op: byte, data: seq<byte>, t: Transform, apply: (Transform, seq<byte>) -> seq<byte>)
    ensures HandleEvent([], SubnegotiateOut(op, data, Some(t)), apply) == Ok(([IAC, SB, op] + data + [IAC, SE], [t]))
  {
    var r := HandleEvent([], SubnegotiateOut(op, data, Some(t)), apply);
    assert r.Ok?;
    assert |r.value.1| == 1 && t in r.value.1;
    assert r.value.1 == [t];
  }

  // ---------------------------------------------------------------------
  // What the peer's framer makes of the bytes written

  /** A negotiation written to a peer that frames bytes the same way comes
      back as the same negotiation. */
  lemma NegotiationRoundTrip(p: TelnetFramer.ParseState, verb: byte, op: byte)
    requires p.tstate == TelnetFramer.Data && IsVerb(verb)
    ensures TelnetFramer.Feed(p, Wire(NegotiateOut(verb, op)).value)
         == TelnetFramer.Ran(p.(iacCommand := 0), [TelnetFramer.Negotiate(verb, op)], false)
  {
    var wire := [IAC, verb, op];
    assert wire + [] == wire;
    TelnetFramer.NegotiationFrame(p, verb, op, [], [], []);
    assert [] + TelnetFramer.Flushed([]) + [TelnetFramer.Negotiate(verb, op)] == [TelnetFramer.Negotiate(verb, op)];
  }

  /** A subnegotiation whose option and data hold no IAC comes back as the
      same subnegotiation. */
  lemma SubnegotiationRoundTrip(p: TelnetFramer.ParseState, op: byte, data: seq<byte>, cb: Option<Transform>)
    requires p.tstate == TelnetFramer.Data && op != IAC
    requires forall i :: 0 <= i < |data| ==> data[i] != IAC
    ensures TelnetFramer.Feed(p, Wire(SubnegotiateOut(op, data, cb)).value)
         == TelnetFramer.Ran(TelnetFramer.ParseState(TelnetFramer.Data, p.iacCommand, [], Some(0)), [TelnetFramer.Subnegotiate(op, data)], false)
  {
    var wire := [IAC, SB, op] + data + [IAC, SE];
    assert wire + [] == wire;
    TelnetFramer.SubnegotiationFrame(p, op, data, [], [], []);
    assert [] + TelnetFramer.Flushed([]) + [TelnetFramer.Subnegotiate(op, data)] == [TelnetFramer.Subnegotiate(op, data)];
  }

  /** Non-empty ASCII text without a carriage return comes back as one
      application event holding its bytes. */
  lemma TextRoundTrip(p: TelnetFramer.ParseState, text: string)
    requires p.tstate == TelnetFramer.Data && |text| > 0 && IsAscii(text)
    requires forall i :: 0 <= i < |text| ==> text[i] != '\r'
    ensures TelnetFramer.Feed(p, Wire(TextOut(text)).value)
         == TelnetFramer.Ran(p, [TelnetFramer.Application(Wire(TextOut(text)).value)], false)
  {
    var bytes := Wire(TextOut(text)).value;
    assert forall i :: 0 <= i < |bytes| ==> bytes[i] != IAC && bytes[i] != CR by {
      forall i | 0 <= i < |bytes| ensures bytes[i] != IAC && bytes[i] != CR {
        assert bytes[i] == text[i] as int;
      }
    }
    TelnetFramer.PlainData(p, bytes);
  }

  /** IAC inside subnegotiation data is not doubled on the way out, so the
      peer ends the subnegotiation early: data [IAC, SE] arrives as an
      empty payload followed by a stray SE command. */
  lemma UnescapedSubnegotiationData(op: byte)
    requires op != IAC
    ensures TelnetFramer.Feed(TelnetFramer.Initial, Wire(SubnegotiateOut(op, [IAC, SE], None)).value)
         == TelnetFramer.Ran(TelnetFramer.ParseState(TelnetFramer.Data, 0, [], Some(0)),
                             [TelnetFramer.Subnegotiate(op, []), TelnetFramer.Control(SE)], false)
  {
    var p := TelnetFramer.Initial;
    var wire := [IAC, SB, op] + [IAC, SE] + [IAC, SE];
    assert Wire(SubnegotiateOut(op, [IAC, SE], None)).value == wire;
    TelnetFramer.SubnegotiationFrame(p, op, [], [IAC, SE], [], []);
    assert [IAC, SB, op] + [] + [IAC, SE] + [IAC, SE] == wire;
    var q := TelnetFramer.ParseState(TelnetFramer.Data, 0, [], Some(0));
    var evs := [TelnetFramer.Subnegotiate(op, [])];
    assert [] + TelnetFramer.Flushed([]) + evs == evs;
    TelnetFramer.ControlFrame(q, SE, [], [], evs);
    assert [IAC, SE] + [] == [IAC, SE];
    assert evs + TelnetFramer.Flushed([]) + [TelnetFramer.Control(SE)] == [TelnetFramer.Subnegotiate(op, []), TelnetFramer.Control(SE)];
  }
}
