/** The WILL/WONT/DO/DONT sub-state-machine every telnet option handler
    shares (`TelnetOptionHandler`): an "us" and a "them" flag pair, the
    offers made at start-up and the reaction to each received verb. The
    handler-specific side effects are named by `Hook` and carried out by
    the concrete handlers. */
module TelnetNegotiation {
  import opened Wrappers
  import opened TelnetCodes

  datatype OptionState = OptionState(enabled: bool, negotiating: bool)

  datatype Sides = Sides(us: OptionState, them: OptionState)

  /** Both sides disabled and nothing pending, as constructed. */
  const Fresh: Sides := Sides(OptionState(false, false), OptionState(false, false))

  datatype Hook = EnableLocal | EnableRemote | DisableLocal | DisableRemote | RefusedLocal | RefusedRemote

  /** What receiving one verb does: the new flags, whether a bare DO byte is
      written straight to the transport, and the hook invoked (if any). */
  datatype Reaction = Reaction(sides: Sides, sendDo: bool, hook: Option<Hook>)

  /** `start`: a handler that wants DO and/or WILL queues those verbs, DO
      first, and marks the local side as negotiating. */
  function Start(s: Sides, wantsWill: bool, wantsDo: bool): (r: (Sides, seq<byte>))
    ensures r.0.them == s.them && r.0.us.enabled == s.us.enabled
    ensures r.0.us.negotiating <==> s.us.negotiating || |r.1| > 0
    ensures DO in r.1 <==> wantsDo
    ensures WILL in r.1 <==> wantsWill
    ensures forall i :: 0 <= i < |r.1| ==> r.1[i] == DO || r.1[i] == WILL
    ensures |r.1| == 2 ==> r.1 == [DO, WILL]
  {
    var offers := (if wantsDo then [DO] else []) + (if wantsWill then [WILL] else []);
    (s.(us := s.us.(negotiating := s.us.negotiating || |offers| > 0)), offers)
  }

  /** `recv_WILL`. The pending check reads the local flag, so a WILL that
      answers our own WILL offer is taken as the reply to a DO. */
  function RecvWill(s: Sides): (r: Reaction)
    ensures r.sides.them.enabled && !r.sides.us.negotiating
    ensures r.sides.us.enabled == s.us.enabled && r.sides.them.negotiating == s.them.negotiating
    ensures r.sendDo <==> !s.us.negotiating && !s.them.enabled
    ensures r.hook.Some? <==> s.us.negotiating || !s.them.enabled
    ensures r.hook.Some? ==> r.hook.value == EnableRemote
    ensures r.hook.None? ==> r.sides == s
  {
    if s.us.negotiating then
      Reaction(s.(us := s.us.(negotiating := false), them := s.them.(enabled := true)), false, Some(EnableRemote))
    else if !s.them.enabled then
      Reaction(s.(them := s.them.(enabled := true)), true, Some(EnableRemote))
    else
      Reaction(s, false, None)
  }

  /** `recv_WONT`. */
  function RecvWont(s: Sides): (r: Reaction)
    ensures !r.sides.us.negotiating && !r.sendDo
    ensures r.sides.them.enabled <==> s.them.enabled && s.us.negotiating
    ensures r.sides.us.enabled == s.us.enabled && r.sides.them.negotiating == s.them.negotiating
    ensures s.us.negotiating ==> r.hook == Some(RefusedRemote)
    ensures !s.us.negotiating && s.them.enabled ==> r.hook == Some(DisableRemote)
    ensures !s.us.negotiating && !s.them.enabled ==> r == Reaction(s, false, None)
  {
    if s.us.negotiating then
      Reaction(s.(us := s.us.(negotiating := false)), false, Some(RefusedRemote))
    else if s.them.enabled then
      Reaction(s.(them := s.them.(enabled := false)), false, Some(DisableRemote))
    else
      Reaction(s, false, None)
  }

  /** `recv_DO`. */
  function RecvDo(s: Sides): (r: Reaction)
    ensures r.sides.us.enabled && !r.sides.us.negotiating && !r.sendDo
    ensures r.sides.them == s.them
    ensures r.hook.Some? <==> s.us.negotiating || !s.us.enabled
    ensures r.hook.Some? ==> r.hook.value == EnableLocal
    ensures r.hook.None? ==> r.sides == s
  {
    if s.us.negotiating then
      Reaction(s.(us := OptionState(true, false)), false, Some(EnableLocal))
    else if !s.us.enabled then
      Reaction(s.(us := s.us.(enabled := true)), false, Some(EnableLocal))
    else
      Reaction(s, false, None)
  }

  /** `recv_DONT`: only a pending offer is affected; an enabled option
      stays enabled. */
  function RecvDont(s: Sides): (r: Reaction)
    ensures s.us.negotiating ==> r == Reaction(s.(us := s.us.(negotiating := false)), false, Some(RefusedLocal))
    ensures !s.us.negotiating ==> r == Reaction(s, false, None)
  {
    if s.us.negotiating then
      Reaction(s.(us := s.us.(negotiating := false)), false, Some(RefusedLocal))
    else
      Reaction(s, false, None)
  }

  /** `execute_iac_negotiation` once the handler is found: the verb picks
      the method; any other command byte does nothing. */
  function Receive(s: Sides, verb: byte): (r: Reaction)
    ensures !IsVerb(verb) ==> r == Reaction(s, false, None)
  {
    if verb == WILL then RecvWill(s)
    else if verb == WONT then RecvWont(s)
    else if verb == DO then RecvDo(s)
    else if verb == DONT then RecvDont(s)
    else Reaction(s, false, None)
  }

  /** The flags a handler can reach: the local side is never both pending
      and enabled, and the remote side is never marked pending. */
  predicate Consistent(s: Sides) {
    !(s.us.negotiating && s.us.enabled) && !s.them.negotiating
  }

  /** No received verb breaks consistency, and none ever starts a new
      negotiation. */
  lemma ReceiveKeepsConsistent(s: Sides, verb: byte)
    requires Consistent(s)
    ensures Consistent(Receive(s, verb).sides)
    ensures Receive(s, verb).sides.us.negotiating ==> s.us.negotiating
  {
  }

  /** Receives a sequence of verbs, collecting the hooks invoked. */
  function ReceiveAll(s: Sides, verbs: seq<byte>): (Sides, seq<Hook>)
    decreases |verbs|
  {
    if |verbs| == 0 then (s, [])
    else
      var r := Receive(s, verbs[0]);
      var (s', hooks) := ReceiveAll(r.sides, verbs[1..]);
      (s', (if r.hook.Some? then [r.hook.value] else []) + hooks)
  }

  /** Starting from a fresh handler, after the start-up offers and any
      sequence of received verbs, the flags stay consistent; the remote
      side is never marked pending. */
  lemma {:induction false} NegotiationStaysConsistent(s: Sides, verbs: seq<byte>)
    requires Consistent(s)
    ensures Consistent(ReceiveAll(s, verbs).0)
    decreases |verbs|
  {
    if |verbs| > 0 {
      ReceiveKeepsConsistent(s, verbs[0]);
      NegotiationStaysConsistent(Receive(s, verbs[0]).sides, verbs[1..]);
    }
  }

  lemma StartIsConsistent(wantsWill: bool, wantsDo: bool)
    ensures Consistent(Start(Fresh, wantsWill, wantsDo).0)
  {
  }

  /** Once an offer has been answered, no later verb makes it pending
      again: every negotiation happens at most once. */
  lemma {:induction false} NoRenegotiation(s: Sides, verbs: seq<byte>)
    requires !s.us.negotiating
    ensures !ReceiveAll(s, verbs).0.us.negotiating
    decreases |verbs|
  {
    if |verbs| > 0 {
      NoRenegotiation(Receive(s, verbs[0]).sides, verbs[1..]);
    }
  }

  /** A DONT that answers nothing leaves the option as it was, even when it
      is enabled: the option cannot be switched off from the remote end. */
  lemma DontKeepsEnabledOption(s: Sides)
    requires !s.us.negotiating && s.us.enabled
    ensures Receive(s, DONT) == Reaction(s, false, None)
  {
  }

  /** A handler that offered WILL and receives WILL (rather than DO) takes it
      as the reply to a DO: the remote side is enabled and the local offer is
      no longer pending, without a DO being written. */
  lemma WillAnswersOwnWill()
    ensures var s := Start(Fresh, true, false).0;
            Receive(s, WILL) == Reaction(Sides(OptionState(false, false), OptionState(true, false)), false, Some(EnableRemote))
  {
  }
}
