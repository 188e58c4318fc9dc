/** The concrete option handlers the telnet protocol installs (MCCP2, SGA,
    NAWS, TTYPE): which verbs each offers, what its hooks queue, NAWS
    window-size decoding (RFC 1073) and the TTYPE rounds with the MTTS
    bitmask (RFC 1091). */
module TelnetHandlers {
  import opened Wrappers
  import opened TelnetCodes
  import opened TelnetNegotiation
  import opened TelnetTransforms
  import opened TelnetOutbound

  datatype Kind = Mccp2 | Sga | Naws | Ttype

  /** `handler_classes`, in order (MCCP3 and MSSP are commented out). Every
      `start_order` is 0, so the stable sort in `start_negotiation` keeps
      this order. */
  const Installed: seq<Kind> := [Mccp2, Sga, Naws, Ttype]

  function Code(k: Kind): (r: byte)
    ensures r != IAC
  {
    match k
    case Mccp2 => MCCP2
    case Sga => SGA
    case Naws => NAWS
    case Ttype => TTYPE
  }

  lemma CodesDistinct(a: Kind, b: Kind)
    ensures Code(a) == Code(b) <==> a == b
  {
  }

  predicate WantsWill(k: Kind) {
    k == Mccp2 || k == Sga
  }

  predicate WantsDo(k: Kind) {
    k == Naws || k == Ttype
  }

  /** MCCP2 as a write transform (`write_transform_order` is 0). */
  const Mccp2Transform: Transform := Transform(MCCP2, 0)

  /** The negotiated client description (`scope["game_client"]`) as far as
      the handlers read or write it. */
  datatype Client = Client(width: int, height: int, ansi: bool, xterm256: bool, utf8: bool, screenreader: bool)

  /** What a hook does besides the flag changes: events it queues and a
      write transform it unregisters. */
  datatype HookEffect = HookEffect(queued: seq<OutEvent>, unregister: Option<Transform>)

  const NoEffect: HookEffect := HookEffect([], None)

  /** TTYPE SEND: the request for the next terminal-type round. */
  const TtypeRequest: OutEvent := SubnegotiateOut(TTYPE, [1], None)

  /** The hooks the concrete handlers override; every other hook is a
      no-op. */
  function Effect(k: Kind, hook: Hook): (r: HookEffect)
    ensures r.unregister.Some? ==> k == Mccp2 && hook == DisableLocal
    ensures |r.queued| <= 1
    ensures k == Sga || k == Naws ==> r == NoEffect
  {
    match (k, hook)
    case (Ttype, EnableRemote) => HookEffect([TtypeRequest], None)
    case (Mccp2, EnableLocal) => HookEffect([SubnegotiateOut(MCCP2, [], Some(Mccp2Transform))], None)
    case (Mccp2, DisableLocal) => HookEffect([], Some(Mccp2Transform))
    case _ => NoEffect
  }

  // ---------------------------------------------------------------------
  // NAWS

  /** A big-endian 16-bit word. */
  function Word16(hi: byte, lo: byte): (r: int)
    ensures 0 <= r < 65536
  {
    hi * 256 + lo
  }

  /** The payload a client sends for a window of `width` x `height`. */
  function NawsPayload(width: int, height: int): (r: seq<byte>)
    requires 0 <= width < 65536 && 0 <= height < 65536
    ensures |r| == 4
  {
    [width / 256, width % 256, height / 256, height % 256]
  }

  /** NAWS `receive_sb`, with the geometry compared against the client
      description itself (see `NawsReceiveAsWritten` for the code as
      written): a 4-byte payload sets width and height, anything else is
      ignored. */
  function NawsReceive(c: Client, data: seq<byte>): (r: Client)
    ensures |data| == 4 ==> r == c.(width := Word16(data[0], data[1]), height := Word16(data[2], data[3]))
    ensures |data| != 4 ==> r == c
  {
    if |data| == 4 then
      var w := Word16(data[0], data[1]);
      var h := Word16(data[2], data[3]);
      var c1 := if w != c.width then c.(width := w) else c;
      if h != c1.height then c1.(height := h) else c1
    else c
  }

  /** Decoding undoes the client's encoding. */
  lemma NawsRoundTrip(c: Client, width: int, height: int)
    requires 0 <= width < 65536 && 0 <= height < 65536
    ensures NawsReceive(c, NawsPayload(width, height)) == c.(width := width, height := height)
  {
  }

  /** A repeated report changes nothing more. */
  lemma NawsIdempotent(c: Client, data: seq<byte>)
    ensures NawsReceive(NawsReceive(c, data), data) == NawsReceive(c, data)
  {
  }

  /** The NAWS handler as written keeps the width and height it copied
      from the client description when it was constructed, and never
      updates them; `change_width` writes only the client description. */
  datatype NawsHandler = NawsHandler(width: int, height: int)

  function NawsReceiveAsWritten(hnd: NawsHandler, c: Client, data: seq<byte>): (r: Client)
    ensures |data| != 4 ==> r == c
    ensures r.ansi == c.ansi && r.xterm256 == c.xterm256 && r.utf8 == c.utf8 && r.screenreader == c.screenreader
  {
    if |data| == 4 then
      var w := Word16(data[0], data[1]);
      var h := Word16(data[2], data[3]);
      var c1 := if w != hnd.width then c.(width := w) else c;
      if h != hnd.height then c1.(height := h) else c1
    else c
  }

  /** While the client description still holds the constructor-time
      geometry, the code as written behaves as intended. */
  lemma NawsAsWrittenAgreesInitially(hnd: NawsHandler, c: Client, data: seq<byte>)
    requires c.width == hnd.width && c.height == hnd.height
    ensures NawsReceiveAsWritten(hnd, c, data) == NawsReceive(c, data)
  {
  }

  /** Resizing away from the initial width and back again: the code as
      written ignores the second report, leaving a width of 80 where the
      client has 78. */
  lemma NawsResizeBackIgnored()
    ensures var hnd := NawsHandler(78, 24);
            var c0 := Client(78, 24, false, false, false, false);
            var c1 := NawsReceiveAsWritten(hnd, c0, [0, 80, 0, 24]);
            NawsReceiveAsWritten(hnd, c1, [0, 78, 0, 24]).width == 80
            && NawsReceive(NawsReceive(c0, [0, 80, 0, 24]), [0, 78, 0, 24]).width == 78
  {
  }

  // ---------------------------------------------------------------------
  // MTTS

  /** Bytes `bytes.strip()` removes. */
  predicate IsByteSpace(b: byte) {
    b == 32 || 9 <= b <= 13
  }

  function ByteStripLeft(s: seq<byte>): (r: seq<byte>)
    ensures |r| <= |s| && r == s[|s| - |r|..]
    ensures |r| > 0 ==> !IsByteSpace(r[0])
    ensures forall i :: 0 <= i < |s| - |r| ==> IsByteSpace(s[i])
  {
    if |s| > 0 && IsByteSpace(s[0]) then ByteStripLeft(s[1..]) else s
  }

  function ByteStripRight(s: seq<byte>): (r: seq<byte>)
    ensures |r| <= |s| && r == s[..|r|]
    ensures |r| > 0 ==> !IsByteSpace(r[|r| - 1])
    ensures forall i :: |r| <= i < |s| ==> IsByteSpace(s[i])
  {
    if |s| > 0 && IsByteSpace(s[|s| - 1]) then ByteStripRight(s[..|s| - 1]) else s
  }

  function ByteStrip(s: seq<byte>): seq<byte> {
    ByteStripRight(ByteStripLeft(s))
  }

  predicate IsDigit(b: byte) {
    48 <= b <= 57
  }

  /** `bytes.isdigit()`: non-empty and ASCII digits only. */
  predicate AllDigits(s: seq<byte>) {
    |s| > 0 && forall i :: 0 <= i < |s| ==> IsDigit(s[i])
  }

  /** `int()` of a digit string. */
  function DecimalValue(s: seq<byte>): (n: nat)
    requires forall i :: 0 <= i < |s| ==> IsDigit(s[i])
    decreases |s|
  {
    if |s| == 0 then 0
    else
      assert IsDigit(s[|s| - 1]);
      DecimalValue(s[..|s| - 1]) * 10 + (s[|s| - 1] as int - 48)
  }

  /** The shortest decimal rendering of `n`. */
  function Decimal(n: nat): (s: seq<byte>)
    ensures AllDigits(s)
    decreases n
  {
    if n < 10 then [48 + n] else Decimal(n / 10) + [48 + n % 10]
  }

  lemma {:induction false} DecimalRoundTrip(n: nat)
    ensures DecimalValue(Decimal(n)) == n
    decreases n
  {
    if n >= 10 {
      var s := Decimal(n);
      assert s[..|s| - 1] == Decimal(n / 10);
      DecimalRoundTrip(n / 10);
    }
  }

  const MttsTag: seq<byte> := [77, 84, 84, 83]

  /** The bitmask an MTTS reply carries, if it is one. */
  function MttsValue(data: seq<byte>): (r: Option<nat>)
    ensures r.Some? ==> |data| >= 4 && data[..4] == MttsTag
    ensures r.Some? <==> |data| >= 4 && data[..4] == MttsTag && AllDigits(ByteStrip(data[4..]))
  {
    if |data| >= 4 && data[..4] == MttsTag then
      var option := ByteStrip(data[4..]);
      if AllDigits(option) then Some(DecimalValue(option)) else None
    else None
  }

  /** Whether flag `bit` (a power of two) is set in `n`. */
  predicate HasBit(n: nat, bit: nat)
    requires bit > 0
  {
    (n / bit) % 2 == 1
  }

  /** `set_mtts`: each flag present in the bitmask switches the matching
      capability on; none is ever switched off. */
  function SetMtts(c: Client, data: seq<byte>): (r: Client)
    ensures r.width == c.width && r.height == c.height
    ensures c.ansi ==> r.ansi
    ensures c.xterm256 ==> r.xterm256
    ensures c.utf8 ==> r.utf8
    ensures c.screenreader ==> r.screenreader
    ensures MttsValue(data).None? ==> r == c
    ensures MttsValue(data).Some? ==>
              var n := MttsValue(data).value;
              r.screenreader == (c.screenreader || HasBit(n, 64)) && r.xterm256 == (c.xterm256 || HasBit(n, 8))
              && r.utf8 == (c.utf8 || HasBit(n, 4)) && r.ansi == (c.ansi || HasBit(n, 1))
  {
    match MttsValue(data)
    case None => c
    case Some(n) =>
      var c1 := if HasBit(n, 64) then c.(screenreader := true) else c;
      var c2 := if HasBit(n, 8) then c1.(xterm256 := true) else c1;
      var c3 := if HasBit(n, 4) then c2.(utf8 := true) else c2;
      if HasBit(n, 1) then c3.(ansi := true) else c3
  }

  /** The reply `MTTS <n>` a client sends carries `n`. */
  lemma MttsRoundTrip(n: nat)
    ensures MttsValue(MttsTag + [32] + Decimal(n)) == Some(n)
  {
    var data := MttsTag + [32] + Decimal(n);
    assert data[..4] == MttsTag;
    var d := Decimal(n);
    assert data[4..] == [32] + d;
    assert ByteStripLeft([32] + d) == d by {
      assert ([32] + d)[1..] == d;
    }
    assert ByteStripRight(d) == d;
    DecimalRoundTrip(n);
  }

  // ---------------------------------------------------------------------
  // TTYPE

  /** The TTYPE handler's own fields: the round counter and the first
      reply, kept to detect a client that repeats itself. */
  datatype TtypeRounds = TtypeRounds(counter: nat, nameBytes: Option<seq<byte>>)

  const FreshRounds: TtypeRounds := TtypeRounds(0, None)

  /** The client-name and terminal-capability heuristics (`set_client`,
      `set_capabilities`) are kept abstract; `set_client` can raise. */
  datatype Heuristics = Heuristics(setClient: (Client, seq<byte>) -> Result<Client>, setCapabilities: (Client, seq<byte>) -> Client)

  /** The result of one TTYPE reply: the new rounds, the client
      description, and whether the next round is requested. */
  datatype TtypeStep = TtypeStep(rounds: TtypeRounds, client: Client, request: bool)

  /** TTYPE `receive_sb`. */
  function TtypeReceive(t: TtypeRounds, c: Client, data: seq<byte>, h: Heuristics): (r: Result<TtypeStep>)
    ensures |data| == 0 ==> r == Err(IndexError)
    ensures |data| > 0 && data[0] != 0 ==> r == Ok(TtypeStep(t, c, false))
    ensures r.Err? <==> |data| == 0 || (data[0] == 0 && t.counter == 0 && h.setClient(c, data[1..]).Err?)
    ensures r.Ok? ==> r.value.rounds.counter == t.counter || r.value.rounds.counter == t.counter + 1
    ensures r.Ok? ==> (r.value.request <==> r.value.rounds.counter == t.counter + 1 <= 2)
    ensures r.Ok? && t.counter <= 3 ==> r.value.rounds.counter <= 3
    ensures r.Ok? && t.counter >= 3 ==> r.value == TtypeStep(t, c, false)
  {
    if |data| == 0 then Err(IndexError)
    else if data[0] != 0 then Ok(TtypeStep(t, c, false))
    else
      var payload := data[1..];
      if t.counter == 0 then
        var c1 :- h.setClient(c, payload);
        Ok(TtypeStep(TtypeRounds(1, Some(payload)), c1, true))
      else if t.counter == 1 then
        if t.nameBytes == Some(payload) then Ok(TtypeStep(t, c, false))
        else Ok(TtypeStep(t.(counter := 2), h.setCapabilities(c, payload), true))
      else if t.counter == 2 then
        Ok(TtypeStep(t.(counter := 3), SetMtts(c, payload), false))
      else Ok(TtypeStep(t, c, false))
  }

  /** A client that gives the same answer twice ends the exchange after one
      round, without a further request. */
  lemma TtypeRepeatedNameStops(name: seq<byte>, c: Client, c1: Client, h: Heuristics)
    requires h.setClient(c, name) == Ok(c1)
    ensures TtypeReceive(FreshRounds, c, [0] + name, h) == Ok(TtypeStep(TtypeRounds(1, Some(name)), c1, true))
    ensures TtypeReceive(TtypeRounds(1, Some(name)), c1, [0] + name, h) == Ok(TtypeStep(TtypeRounds(1, Some(name)), c1, false))
  {
    assert ([0] + name)[1..] == name;
  }

  /** A sequence of TTYPE replies, stopping at the first that raises. The
      result counts the requests sent. */
  function TtypeReceiveAll(t: TtypeRounds, c: Client, replies: seq<seq<byte>>, h: Heuristics): Result<(TtypeRounds, Client, nat)>
    decreases |replies|
  {
    if |replies| == 0 then Ok((t, c, 0))
    else
      var s :- TtypeReceive(t, c, replies[0], h);
      var (t2, c2, n) :- TtypeReceiveAll(s.rounds, s.client, replies[1..], h);
      Ok((t2, c2, n + if s.request then 1 else 0))
  }

  function Min2(n: nat): nat {
    if n < 2 then n else 2
  }

  /** However the client answers, the counter stays at most 3 and a
      request is sent for exactly the rounds 0 and 1 that complete: the
      server never asks more than twice beyond its first request. */
  lemma {:induction false} TtypeRequestsCounted(t: TtypeRounds, c: Client, replies: seq<seq<byte>>, h: Heuristics)
    requires t.counter <= 3
    ensures var r := TtypeReceiveAll(t, c, replies, h);
            r.Ok? ==> r.value.0.counter <= 3 && Min2(t.counter) + r.value.2 == Min2(r.value.0.counter)
    decreases |replies|
  {
    if |replies| > 0 {
      var s := TtypeReceive(t, c, replies[0], h);
      if s.Ok? {
        TtypeRequestsCounted(s.value.rounds, s.value.client, replies[1..], h);
      }
    }
  }
}
