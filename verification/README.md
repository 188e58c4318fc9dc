# mudslide core, modelled in Dafny

This project models the core of **mudslide**, a Python MUD server, in
Dafny: its telnet protocol engine, and the small utilities that name,
match and clean the things players type. The model is built from immutable
datatypes and pure functions, and the properties the code promises are
proved about it.

- **Telnet engine** (`mudslide/protocols/telnet.py`), split across seven
  modules:
  - `TelnetCodes`: the byte constants.
  - `TelnetFramer`: the per-byte `handle_reader` state machine (RFC 854
    line endings and IAC doubling, RFC 855 subnegotiation). It is a fold
    over the input bytes with the parse state kept between calls. A generic
    receiver takes each event and may raise, which ends the call.
  - `TelnetNegotiation`: the WILL/WONT/DO/DONT flag transitions of an
    option handler.
  - `TelnetHandlers`: the MCCP2, SGA, NAWS (RFC 1073) and TTYPE/MTTS
    (RFC 1091) handlers.
  - `TelnetTransforms`: the read/write transform registries.
  - `TelnetOutbound`: outbound serialisation (`handle_event`).
  - `TelnetLines`: the line splitter for application data
    (`parse_application_data`).
  - `TelnetSession` wires these together as one protocol object.
- **`Misc`**: `string_partial_matching` (ordered word-prefix matching),
  from `mudslide/utils/misc.py`.
- **`Text`**: `penn_substitutions`, `sanitize_string`, `sanitize_name`,
  `partial_match` and `iter_to_string`, from `mudslide/utils/text.py`.
- **`Commands`**: key, alias, lock-string and help-category normalisation
  of a command, its match set, and the comparisons, from
  `mudslide/utils/command.py`.
- **`Input`**: the alias table of `CommandContainer` and its
  case-insensitive, access-gated lookup, from
  `mudslide/services/input.py`.
- **`Options`**: option lookup precedence, the logged-in guard on saving,
  and the `deserialize` type checks, from `mudslide/utils/options.py`.
  Python's `bool` counts as an `int` there.
- **Support modules:**
  - `Wrappers`: `Option`, `Result`, and the Python exceptions raised.
  - `Strings`: ASCII versions of `lower`, `strip`, `split`, `join`,
    `startswith`, `in` and `replace`.
  - `Sorting`: a stable sort standing for Python's `sorted`/`list.sort`.

Exceptions are values: a function that can raise returns a `Result`. The
framer and the switchboard stop a call where the exception happens. The
framer keeps the state updates already made at that point.

## Model

| member | source | states |
|---|---|---|
| TelnetFramer.Step | mudslide/protocols/telnet.py:563-649 | A byte adds non-empty application data, changes only the state, hands on an event or raises; every event is handed on from the DATA state. |
| TelnetFramer.RunSignal | mudslide/protocols/telnet.py:551-557 | Before an event is handed on, the application bytes gathered earlier in the call are flushed as one application event, then the call goes on with an empty buffer. |
| TelnetFramer.PlainPrefix | mudslide/protocols/telnet.py:566-572 | In the DATA state, bytes other than IAC and CR only extend the application buffer, whatever receives the events. |
| TelnetFramer.PlainData | mudslide/protocols/telnet.py:563-652 | A non-empty input without IAC or CR, from DATA, yields exactly one application event equal to the input, and the state is unchanged. |
| TelnetFramer.DoubledIac | mudslide/protocols/telnet.py:566-576 | `IAC IAC` adds exactly one 0xFF byte and hands on no event. |
| TelnetFramer.CarriageReturn | mudslide/protocols/telnet.py:601-621 | CR LF gives LF; CR NUL gives CR; CR IAC gives CR and enters ESCAPED; CR x gives CR then x. |
| TelnetFramer.NegotiationFrame | mudslide/protocols/telnet.py:573-600 | `IAC verb op` hands on exactly `negotiate(verb, op)` after the pending application bytes. |
| TelnetFramer.ControlFrame | mudslide/protocols/telnet.py:583-590 | `IAC c` for any other command byte hands on `command(c)` after the pending application bytes. |
| TelnetFramer.PayloadRun | mudslide/protocols/telnet.py:628-632 | Inside a subnegotiation, bytes other than IAC are gathered into the payload, with no event. |
| TelnetFramer.SubnegotiationFrame | mudslide/protocols/telnet.py:622-644 | `IAC SB op p IAC SE`, with no IAC in p, hands on exactly `subnegotiate(op, p)` after the pending bytes, and clears the buffer. |
| TelnetFramer.SubEscapeRereadsCode | mudslide/protocols/telnet.py:622-647 | After `IAC x` (x not SE) inside a subnegotiation, x joins the payload and the next byte overwrites the option code instead. |
| TelnetFramer.SubnegotiationWithoutCode | mudslide/protocols/telnet.py:622-643 | `IAC SB IAC SE` never sets the option code: it raises on a fresh framer and reports the stale code otherwise. |
| TelnetFramer.RunBuffered | mudslide/protocols/telnet.py:549-557 | With a receiver that treats application data as a stream, pending bytes may be handed on early without changing the outcome. |
| TelnetFramer.RunFaultPrefix | mudslide/protocols/telnet.py:563-649 | A call that raises within a prefix of its input raises at the same place when more input follows. |
| TelnetFramer.RunSplit | mudslide/protocols/telnet.py:543-652 | For a streaming receiver, feeding `a + b` in one call equals feeding `a` and then `b` in two calls. |
| TelnetFramer.FeedSplit | mudslide/protocols/telnet.py:543-652 | Splitting the input between two calls leaves the same parse state and the same stream of bytes and events; only application-event boundaries differ. |
| TelnetNegotiation.Start | mudslide/protocols/telnet.py:108-124 | `start` queues DO if wanted, then WILL if wanted, and marks the local side pending exactly when it queued something. |
| TelnetNegotiation.RecvWill | mudslide/protocols/telnet.py:126-140 | WILL enables the remote side. It answers with a bare DO only when nothing is pending locally and the remote side was disabled. The pending test reads the local flag. |
| TelnetNegotiation.RecvWont | mudslide/protocols/telnet.py:142-154 | WONT while pending only clears pending (refused); otherwise it disables an enabled remote side, else does nothing. |
| TelnetNegotiation.RecvDo | mudslide/protocols/telnet.py:156-166 | DO enables the local side and clears pending; the enable hook runs unless it was already enabled and nothing was pending. |
| TelnetNegotiation.RecvDont | mudslide/protocols/telnet.py:168-172 | DONT while pending only clears pending (refused); otherwise it changes nothing. |
| TelnetNegotiation.Receive | mudslide/protocols/telnet.py:678-689 | A byte that is not a verb does nothing. |
| TelnetNegotiation.ReceiveKeepsConsistent | mudslide/protocols/telnet.py:108-172 | No verb makes the flags inconsistent, and none starts a new local offer. |
| TelnetNegotiation.NegotiationStaysConsistent | mudslide/protocols/telnet.py:126-172 | Any sequence of verbs keeps the flags consistent. |
| TelnetNegotiation.StartIsConsistent | mudslide/protocols/telnet.py:103-124 | A freshly started handler is consistent. |
| TelnetNegotiation.NoRenegotiation | mudslide/protocols/telnet.py:126-172 | Once an offer is answered, no later verb makes it pending again. |
| TelnetNegotiation.DontKeepsEnabledOption | mudslide/protocols/telnet.py:168-172 | A DONT that answers no offer leaves an enabled option enabled. |
| TelnetNegotiation.WillAnswersOwnWill | mudslide/protocols/telnet.py:126-133 | A handler that offered WILL and receives WILL takes it as the answer to its offer. |
| TelnetHandlers.CodesDistinct | mudslide/protocols/telnet.py:506-509 | The installed handlers have distinct option codes, so none shadows another in `handler_codes`. |
| TelnetHandlers.Effect | mudslide/protocols/telnet.py:390-409 | Only MCCP2's local disable unregisters a transform; hooks queue at most one event; SGA and NAWS hooks do nothing. |
| TelnetHandlers.Word16 | mudslide/protocols/telnet.py:230-233 | A big-endian 16-bit word lies in 0..65535. |
| TelnetHandlers.NawsReceive | mudslide/protocols/telnet.py:229-244 | A 4-byte payload sets width and height to its two big-endian words; any other length changes nothing. |
| TelnetHandlers.NawsRoundTrip | mudslide/protocols/telnet.py:229-238 | Decoding the payload a client sends for `w` x `h` sets exactly `w` and `h`. |
| TelnetHandlers.NawsIdempotent | mudslide/protocols/telnet.py:229-244 | Receiving the same report twice is receiving it once. |
| TelnetHandlers.NawsReceiveAsWritten | mudslide/protocols/telnet.py:224-244 | The code as written compares against constructor-time geometry; it ignores other lengths and never touches capabilities. |
| TelnetHandlers.NawsAsWrittenAgreesInitially | mudslide/protocols/telnet.py:224-238 | While the client still has the constructor-time geometry, the code as written agrees with the corrected handler. |
| TelnetHandlers.NawsResizeBackIgnored | mudslide/protocols/telnet.py:235-238 | From 78x24, resizing to 80 and back to 78 leaves width 80 as written, and 78 when corrected. |
| TelnetHandlers.DecimalRoundTrip | mudslide/protocols/telnet.py:340-342 | `int()` of a number's decimal digits gives the number back. |
| TelnetHandlers.MttsValue | mudslide/protocols/telnet.py:337-342 | A reply is an MTTS bitmask exactly when it starts with `MTTS` and the stripped rest is all digits. |
| TelnetHandlers.SetMtts | mudslide/protocols/telnet.py:335-353 | Each of the four flags in the bitmask switches its capability on. None is switched off, geometry is kept, and a non-MTTS reply changes nothing. |
| TelnetHandlers.MttsRoundTrip | mudslide/protocols/telnet.py:335-342 | The reply `MTTS <n>` carries `n`. |
| TelnetHandlers.TtypeReceive | mudslide/protocols/telnet.py:355-387 | Empty payload raises IndexError; a first byte other than 0 is ignored; the counter grows by at most one, never past 3; a request is sent exactly when it grows to 1 or 2. |
| TelnetHandlers.TtypeRepeatedNameStops | mudslide/protocols/telnet.py:364-378 | Round 0 stores the name and re-requests; the same name again leaves the counter at 1 and sends no request. |
| TelnetHandlers.TtypeRequestsCounted | mudslide/protocols/telnet.py:355-387 | Over any sequence of replies the counter stays at most 3. The number of requests sent is how far the counter moved through rounds 0 and 1, so at most two. |
| TelnetTransforms.Add | mudslide/protocols/telnet.py:511-514 | Adding appends only an absent transform, so never a duplicate; the registry stays sorted by order. |
| TelnetTransforms.RemoveFirst | mudslide/protocols/telnet.py:516-519 | `list.remove` drops exactly one occurrence. |
| TelnetTransforms.Remove | mudslide/protocols/telnet.py:516-519 | Removing deletes the transform only if present and keeps every other one and the sorted shape. |
| TelnetTransforms.PipelineConcat | mudslide/protocols/telnet.py:738-739 | Transforms apply in list order: a concatenated registry applies the first part, then the second. |
| TelnetTransforms.PipelineSmall | mudslide/protocols/telnet.py:560-561 | No transforms pass bytes unchanged; one transform applies exactly itself. |
| TelnetOutbound.EncodeAscii | mudslide/protocols/telnet.py:758-767 | ASCII text encodes byte for byte; anything else raises UnicodeEncodeError. |
| TelnetOutbound.Wire | mudslide/protocols/telnet.py:747-752 | A negotiation is `IAC cmd op`; a subnegotiation is `IAC SB op data IAC SE`; text is its ASCII encoding. |
| TelnetOutbound.HandleEvent | mudslide/protocols/telnet.py:742-756 | The bytes go through the write transforms in order. Only the event's callback adds to the registry, which stays well formed. |
| TelnetOutbound.CallbackRunsAfterSending | mudslide/protocols/telnet.py:749-756 | The MCCP2 start message is written uncompressed; its callback registers the transform only afterwards. |
| TelnetOutbound.NegotiationRoundTrip | mudslide/protocols/telnet.py:751-752 | A peer framer reads a sent negotiation back as the same negotiate event. |
| TelnetOutbound.SubnegotiationRoundTrip | mudslide/protocols/telnet.py:749-750 | A peer framer reads an IAC-free subnegotiation back as the same event. |
| TelnetOutbound.TextRoundTrip | mudslide/protocols/telnet.py:758-767 | A peer framer reads non-empty ASCII text without CR back as one application event. |
| TelnetOutbound.UnescapedSubnegotiationData | mudslide/protocols/telnet.py:749-750 | IAC in subnegotiation data is not doubled: data `IAC SE` ends the frame early on the peer. |
| TelnetSession.OnVerb | mudslide/protocols/telnet.py:678-689 | A verb for an installed handler changes only that handler's flags, plus the hook's effects; a non-verb does nothing. |
| TelnetSession.OnSubnegotiation | mudslide/protocols/telnet.py:671-673 | NAWS applies the corrected size update from the NAWS finding below; MCCP2 and SGA ignore the payload; it raises exactly when TTYPE's handler raises. |
| TelnetSession.Dispatch | mudslide/protocols/telnet.py:654-689 | Commands, and verbs or subnegotiations for unknown options, change nothing; read transforms are never changed. |
| TelnetSession.StartOffers | mudslide/protocols/telnet.py:537-539 | A new connection offers WILL MCCP2, WILL SGA, DO NAWS and DO TTYPE, in that order. |
| TelnetSession.DelivererStreams | mudslide/protocols/telnet.py:691-712 | Application data never raises in the switchboard, and delivering it in two pieces equals delivering it at once. |
| TelnetSession.DeliverConcat | mudslide/protocols/telnet.py:699-712 | One instance of the stream property, for given pieces `x` and `y`. |
| TelnetSession.DeliverApplication | mudslide/protocols/telnet.py:660-661 | Application data goes to the line splitter, and its lines and idle commands reach the application in order, as the bytes `user_command` receives. |
| TelnetSession.ReadSplit | mudslide/protocols/telnet.py:543-652 | Input split over two reads gives the same session and outputs as one read; a read that raises does so the same way with more input. |
| TelnetSession.UnknownOptionIgnored | mudslide/protocols/telnet.py:678-689 | `IAC verb op` for an option with no handler changes nothing visible. |
| TelnetSession.Mccp2Accepted | mudslide/protocols/telnet.py:402-403 | DO MCCP2 after the offer enables it and queues the empty start subnegotiation with the add-transform callback. |
| TelnetSession.TtypeAccepted | mudslide/protocols/telnet.py:269-274 | WILL TTYPE after the offer enables the remote side and queues `SEND`. |
| TelnetSession.UnsolicitedWillSendsBareDo | mudslide/protocols/telnet.py:134-140 | An unsolicited WILL is answered by writing the single DO byte, not `IAC DO op`. |
| TelnetSession.NawsThroughSwitchboard | mudslide/protocols/telnet.py:666-673 | With the corrected NAWS update, a 4-byte report reaches the client description; a short one is ignored. |
| TelnetSession.NawsFirstReportAsWritten | mudslide/protocols/telnet.py:226-238 | On a new connection, the corrected NAWS dispatch gives exactly what the handler as written gives, which compares against the size it copied at construction. |
| TelnetSession.EmptyTtypeRaises | mudslide/protocols/telnet.py:355-357 | An empty TTYPE payload raises and ends the read. |
| TelnetSession.TypedLine | mudslide/protocols/telnet.py:699-712 | A typed line ending in CR LF reaches the application whole, without its line end. |
| TelnetSession.KeepaliveLooksTyped | mudslide/protocols/telnet.py:701-708 | A NUL keepalive reaches the application as the command `IDLE`: the same bytes that a typed line `IDLE` ending in CR LF delivers. |
| TelnetLines.SplitKeepsClean | mudslide/protocols/telnet.py:699-712 | The line buffer and every line handed on hold neither LF nor keepalive bytes. |
| TelnetLines.SplitReassembles | mudslide/protocols/telnet.py:699-712 | The lines handed on, each with its LF, then the buffer, equal the old buffer plus the data without keepalives. |
| TelnetLines.SplitCounts | mudslide/protocols/telnet.py:701-709 | One idle command per NUL or NOP byte and one line per LF. |
| TelnetLines.SplitConcat | mudslide/protocols/telnet.py:699-712 | Data split between two calls gives the same lines; the unfinished line carries over in the buffer. |
| TelnetLines.OneLine | mudslide/protocols/telnet.py:706-708 | A clean line followed by LF is handed on whole and empties the buffer. |
| TelnetLines.SplitNoBreak | mudslide/protocols/telnet.py:711-712 | Bytes with no LF or keepalive only extend the buffer. |
| Misc.FirstPrefixAt | mudslide/utils/misc.py:90-96 | The earliest word from `last_index` on that the search word is a prefix of, or none. |
| Misc.Positions | mudslide/utils/misc.py:85-100 | A found placement gives each search word a word it prefixes, at strictly increasing positions. |
| Misc.GreedyIsComplete | mudslide/utils/misc.py:87-100 | Taking the earliest match per word succeeds exactly when some ordered placement exists. |
| Misc.MatchingFrom | mudslide/utils/misc.py:83-105 | Collected indices are in range and increasing, so the original order is kept. |
| Misc.MatchingFromHits | mudslide/utils/misc.py:101-105 | An index is collected exactly when its alternative is hit. |
| Misc.MatchingIndices | mudslide/utils/misc.py:78-108 | Empty alternatives, empty or blank input give `[]`. Otherwise an alternative is returned iff its words embed the search words in order, with indices in original order. |
| Misc.StringPartialMatching | mudslide/utils/misc.py:101-105 | `ret_index` gives the indices; otherwise the alternatives at those indices, in order. |
| Misc.ExampleAbbreviated | mudslide/utils/misc.py:60-64 | "bi sh sw" matches "big shiny sword" at words 0, 1, 2. |
| Misc.ExampleSingleWords | mudslide/utils/misc.py:60-64 | "shiny" and "sw" each match "big shiny sword". |
| Misc.ExampleOrderMatters | mudslide/utils/misc.py:88-89 | "sw bi" does not match "big shiny sword": words must match in order. |
| Sorting.SortBy | mudslide/utils/text.py:107 | The result is sorted by the key and is a permutation of the input. |
| Sorting.SortByStable | mudslide/utils/text.py:107 | Items with equal keys keep their relative order, as Python's sort does. |
| Sorting.SortBySorted | mudslide/protocols/telnet.py:531-535 | Sorting an already sorted list changes nothing. |
| Text.PennSubstitutionsIsScan | mudslide/utils/text.py:83-90 | The four passes equal one left-to-right scan: each `%r`/`%R` becomes `\|/` and each `%t`/`%T` becomes `\|-` in place, all else kept. |
| Text.PennPassesIsScan | mudslide/utils/text.py:86-89 | The four replace passes agree with the one-pass scan on every input. |
| Text.PennSubstitutionsRemovesTokens | mudslide/utils/text.py:83-90 | The output holds none of the four tokens and has the input's length. |
| Text.PennSubstitutionsFixesClean | mudslide/utils/text.py:83-90 | Text without tokens is returned unchanged. |
| Text.PennSubstitutionsIdempotent | mudslide/utils/text.py:83-90 | Substituting twice is substituting once. |
| Text.SliceTo | mudslide/utils/text.py:65-66 | `text[:n]` is a prefix of length `min(n, len)`, or `len + n` floored at 0 for negative `n`. |
| Text.StripNewlinesRemoves | mudslide/utils/text.py:59-61 | The newline strip leaves no LF and adds no character. |
| Text.StripIndentsRemoves | mudslide/utils/text.py:62-64 | The indent strip leaves no tab and adds no character. |
| Text.CleanedGuarantees | mudslide/utils/text.py:54-64 | After cleaning, no LF remains when newlines are stripped and no tab when indents are. |
| Text.SanitizeStringGuarantees | mudslide/utils/text.py:51-67 | Empty input gives ""; no LF or tab when stripped; a positive length bounds the result, which is a prefix of the untruncated one. |
| Text.DeletionCanReformToken | mudslide/utils/text.py:59-61 | Deleting `%r` from `%%rr` leaves `%r`: a single deleting pass can leave a token behind. |
| Text.FirstSystemChar | mudslide/utils/text.py:100-102 | Finds a forbidden character present in the name, or none of the remaining ones is present. |
| Text.SanitizeName | mudslide/utils/text.py:96-103 | Succeeds iff the sanitised name is non-empty and free of `/ \| = ,`, returning it; otherwise raises ValueError. |
| Text.SanitizeNameAccepted | mudslide/utils/text.py:93-103 | An accepted name is non-empty and has no LF, tab or system character. |
| Text.FirstHit | mudslide/utils/text.py:108-112 | Returns a candidate whose lowercase starts with the lowercase text, or none when no candidate does. |
| Text.ShortestHit | mudslide/utils/text.py:106-112 | Reference: the index of the shortest hit, earliest on a tie; none iff nothing hits. |
| Text.FirstHitInsert | mudslide/utils/text.py:107-112 | Inserting into the length-sorted list changes the first hit only when the new item hits and sorts first. |
| Text.PartialMatchIsShortestHit | mudslide/utils/text.py:106-112 | `partial_match` returns the shortest matching candidate, the earliest among equal lengths, or None. |
| Text.IterToStringConcat | mudslide/utils/text.py:298-299 | Joining two non-empty lists is joining each, with ", " between. |
| Text.IterToStringLength | mudslide/utils/text.py:298-299 | The joined length is the items' total length plus two per separator. |
| Commands.InitAliases | mudslide/utils/command.py:35-40 | The aliases are the cleaned comma-separated (or listed) candidates, minus empty ones and the key. |
| Commands.InitAliasesClean | mudslide/utils/command.py:35-40 | Aliases from a comma string are lowercase and stripped. |
| Commands.LockSegment | mudslide/utils/command.py:60-63 | A segment is kept or gets `cmd:` in front; a non-empty result contains `:`. |
| Commands.LockSegments | mudslide/utils/command.py:58-63 | There is at least one segment and none contains `;`. |
| Commands.NormalizeLocksSegments | mudslide/utils/command.py:58-64 | The stored lock string splits back into the normalised segments, one per original segment, each kept or prefixed by `cmd:`. |
| Commands.NormalizeLocksHasCmd | mudslide/utils/command.py:58-64 | The stored lock string always contains `cmd:`. |
| Commands.NormalizeLocksIdempotent | mudslide/utils/command.py:52-64 | Normalising a normalised lock string changes nothing. |
| Commands.InitCommand | mudslide/utils/command.py:34-81 | The key is the lowercased class key; the help category is the lowercased class category, or "general" when the class has none; aliases and locks are normalised; the match set is the key plus the aliases. |
| Commands.Match | mudslide/utils/command.py:302-315 | `match(n)` holds iff n is the key or an alias. |
| Commands.ContainsQuery | mudslide/utils/command.py:243-256 | `query in cmd` holds iff the query is a substring of the key or of an alias; every match passes. |
| Commands.EqName | mudslide/utils/command.py:211-216 | Against a name, `==` is membership in the match set. |
| Commands.NeName | mudslide/utils/command.py:238-241 | Against a name, `!=` is the exact negation of `==`. |
| Commands.EqCommandMeaning | mudslide/utils/command.py:211-213 | Two commands are equal iff some name matches both; the relation is symmetric and means the match sets are not disjoint. |
| Commands.NeCommand | mudslide/utils/command.py:238-239 | Between commands, `!=` (disjointness) is the exact negation of `==`. |
| Commands.SetKey | mudslide/utils/command.py:267-280 | The key becomes the lowercased new key, aliases kept; afterwards a name matches iff it is the new key or an alias. |
| Commands.SetAliases | mudslide/utils/command.py:282-300 | The aliases are the cleaned `;`-separated (or listed) entries other than the key, duplicates merged; all lowercase and stripped. |
| Commands.SetAliasesKeepsEmpty | mudslide/utils/command.py:296-299 | Empty entries are not dropped: `;;` makes "" an alias. |
| Input.SetAll | mudslide/services/input.py:12-15 | Each key is written to map to the command; other entries are kept. |
| Input.LastOwner | mudslide/services/input.py:11-15 | Reference: the last command whose name or aliases include the key, or none. |
| Input.TableIsLastOwner | mudslide/services/input.py:7-15 | The table holds exactly the names and aliases, each mapped to the last command claiming it. |
| Input.Get | mudslide/services/input.py:17-20 | Lookup finds the lowercased query, returning the command only if access allows. |
| Input.GetFindsLastOwner | mudslide/services/input.py:17-20 | Lookup returns the last command claiming the lowercased query, if access allows, else None. |
| Input.LowerHasNoUpper | mudslide/services/input.py:18 | A lowercased query has no uppercase letter. |
| Input.UppercaseUnreachable | mudslide/services/input.py:13-18 | A command all of whose keys have an uppercase letter is never returned. |
| Options.Str | mudslide/utils/options.py:124-125 | `str(v)` is empty only for the empty string. |
| Options.Deserialize | mudslide/utils/options.py:122-218 | Failures are ValueError; Text and Email return `str(v)`; the other kinds return the value unchanged. |
| Options.DeserializeAccepts | mudslide/utils/options.py:122-218 | Loading succeeds exactly on the values each kind accepts, booleans counting as integers. |
| Options.DeserializeIdempotent | mudslide/utils/options.py:122-218 | Loading a loaded value again gives it back unchanged. |
| Options.IntegerKindsNest | mudslide/utils/options.py:189-218 | Positive implies unsigned implies signed; every boolean is unsigned; `True` is positive and `False` is not. |
| Options.Get | mudslide/utils/options.py:35-41 | The temporary value unless ignored, else the default when logged out, else the account's. |
| Options.GetAccountOnlyWhenLoggedIn | mudslide/utils/options.py:35-41 | The account is consulted only when logged in and no usable temporary value exists. |
| Options.TemporaryShadows | mudslide/utils/options.py:35-37 | A temporary value is returned until lookups ignore temporaries. |
| Options.SaveAsWritten | mudslide/utils/options.py:51-56 | As written, saving succeeds only while logged out, writing nothing. |
| Options.SaveAsWrittenNeverWrites | mudslide/utils/options.py:51-56 | As written, a logged-in save raises TypeError, so nothing reaches the account. |
| Options.Save | mudslide/utils/options.py:51-56 | Corrected: nothing is written while logged out; otherwise the serialised value is. |
| Options.SaveAgreesWhenLoggedOut | mudslide/utils/options.py:51-53 | The corrected save agrees with the code as written wherever the latter does not raise. |
| Options.SaveThenGet | mudslide/utils/options.py:35-56 | Corrected: what a logged-in save writes is what a lookup that skips temporary values then reads from the account. |
| Options.SaveLoadRoundTrip | mudslide/utils/options.py:51-83 | Corrected, with the value-keeping serialiser of the classes modelled: an accepted value saved while logged in is read back and loads as the same value. |

## Left out

- Asynchronous plumbing is not modelled. The ASGI queues, `write_data`, the sleep in `start_negotiation` and the consumer class become returned output sequences.
- zlib compression for MCCP2 and MCCP3 is not modelled. A transform's effect on bytes is a function parameter of the session.
- MCCP3 and MSSP are not installed, and MSSP is an unfinished stub. No read transform is ever registered, so `ReadSplit` assumes an empty read registry.
- The TTYPE `set_client` and `set_capabilities` heuristics are left abstract. They decode UTF-8 and compare version strings, and they are a parameter (`Heuristics`) whose failure stands for the exception they may raise.
- UTF-8 decoding of typed lines (`user_command`) is left out. Lines are handed on as bytes.
- TelnetSession.OnSubnegotiation: NAWS reports go to the corrected `NawsReceive` (see Findings), not to the comparison as written against the size copied at construction. The two agree until the client's size first changes (`NawsFirstReportAsWritten`). After that, the source skips a report equal to the constructor-time size, and this model applies it.
- TelnetSession.NawsThroughSwitchboard: states the corrected update for every session. As written, the source leaves an 80x24 report unapplied when the size was 80x24 at construction and has changed since.
- `ANSI_PARSER.strip_mxp` and `ANSIString.clean` are not part of this model. They are function parameters of `SanitizeString` and `SanitizeName`.
- `lower`, `strip` and `split` are ASCII approximations. Unicode case mapping and Unicode whitespace are not modelled.
- Candidates and aliases are modelled as strings, standing for `str(item)`. For `partial_match`, the candidate itself is returned.
- `is_iter` is taken as false for strings, so a string alias spec is always split. Alias lists are taken as already being strings.
- The `search_index_entry`, `arg_regex`, docstring and `save_for_next` parts of `_init_command` are left out. They set attributes nothing in this core reads.
- The `cmd_match` regex and the login and input dispatch of the input service are left out.
- `dramatic_capitalize`, `tabular_table`, `wrap` and the other text helpers are left out. They are regex- or float-based and outside the core.
- `BaseOption.set` and `display` are left out. They call methods with mismatched arguments or read an undefined `self.value`.
- The datetime, timezone and colour options are left out. They depend on modules that are not part of this model.
- `__eq__` between commands returns the intersection set in Python. It is modelled as that set's truth value.
- `__hash__` and `_keyaliases` ordering are left out. Nothing in the core depends on them.
- Options.Deserialize: the error message holds `str(save_data)` only for the types modelled (strings, ints, bools, None).
- TelnetFramer.FeedSplit: at the level of recorded events, the two calls are compared up to where application data is cut. At the session level, `ReadSplit` states exact equality.

## Findings

| source | as written | input that shows it | evidently intended | confidence | as-written member | corrected member |
|---|---|---|---|---|---|---|
| mudslide/protocols/telnet.py:229-244 | NAWS compares the new size with `self.width`/`self.height`, copied at construction and never updated; `change_width` writes only the client description | client starts 78x24; reports `0 80 0 24`, then `0 78 0 24`: the second report equals the stale 78 and is skipped, so the width stays 80 | compare with the current client description, so every report sets the size | high (not executed) | TelnetHandlers.NawsReceiveAsWritten, TelnetHandlers.NawsResizeBackIgnored | TelnetHandlers.NawsReceive, TelnetHandlers.NawsRoundTrip |
| mudslide/utils/options.py:51-56 | `save` calls `self.serialize(connection, final_value)`, but `serialize` takes one value (`BaseOption`) or none (`Boolean`, `Timezone`, `Duration`, `Datetime`), and `BaseOption.serialize` returns None | any save on a logged-in connection raises TypeError before `save_option` is reached | every class's `serialize` takes the value being saved and returns its storable form (`BaseOption` and `Boolean` return the value itself), and `save` writes `self.serialize(final_value)` | high (not executed) | Options.SaveAsWritten, Options.SaveAsWrittenNeverWrites | Options.Save, Options.SaveThenGet, Options.SaveLoadRoundTrip |
