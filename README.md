# pyGascard in Dafny

This project models the core of pyGascard, a Python driver for Gascard
NG infrared gas sensors. The sensors talk over a serial line in ASCII
lines. The model covers four parts.

- **Transport** (`comm.dfy`, from `pygascard/comm.py`). `SerialDevice` frames
  a command as its ASCII bytes plus `"\r\n"`. It reads a reply line with a
  two-phase reader:
  - phase 1 aligns on one of the seven mode lead-ins;
  - phase 2 accumulates bytes until a terminator arrives.

  The serial port is replaced by the sequence of read windows it delivers,
  `Chunk(bytes)` or `Timeout`. What was written is kept as a log of frames.
  One such event is one read window of `_readline`. `AwaitChunk` shows that
  polling `_read()` until bytes arrive or the window closes yields exactly
  one event, and `ReadBuffer` and `Readline` consume the sequence of them.
- **Card** (`device.dfy`, `records.dfy`, from `pygascard/device.py`).
  `Gascard` keeps the cached mode `_current_mode`. It has a handshake
  (`new_device`), mode selection, seven mode readers, and `get`/`set`
  requests addressed through the code table. The code table (the `values`
  part of codes.json) and the test of whether `float()` accepts a token are
  parameters.
- **Registry** (`daq.dfy`, from `pygascard/daq.py`). The module-global
  `dev_list` is a `Registry` object. `DAQ` adds, removes and fans requests
  out to the registered cards, one card after another.
- **Discovery** (`util.dfy`, from `pygascard/util.py`). A probe decides from
  one reply whether a port holds a Gascard, and a scan filters a port list
  by that probe.

`wrappers.dfy` holds `Option`, `Result`, `Outcome` and the Python exception
kinds. `text.dfy` holds the Python `str` operations the code uses:
`isspace`, `split`, `replace("\x00", "")`, `strip` and slicing. It also
holds a space-joining function, used only to state what a "Name Port"
string looks like.

Where the code and its documentation disagree, the model follows the code:

- the reader returns the whole buffer, terminator and any trailing bytes
  included;
- a timeout before alignment returns the partial buffer;
- a timeout after alignment raises `TypeError`;
- `_write_readline` never sends its command;
- `DAQ.get` with no `val` asks each card for the name `""`, so it gets
  empty records rather than full normal-mode records;
- the card's `zero`, `span` and `time_const` use the underscore field names
  (`Zero_Gas_Corr_Factor`), while the `DAQ` wrappers use the spaced ones
  (`Zero Gas Corr Factor`). Both are modelled as written.

Python set iteration order (`unique_modes` in `get` and `set`) is not
specified. The methods pick the next mode nondeterministically, and their
contracts hold for every order. A ghost out-parameter `visited` records the
order that was taken.

Each card keeps a ghost log `setCalls` of the parameters of every `set` call
it received. The registry's fan-outs are stated through that log: after a
fan-out over the visited names, each registered card's log has grown by the
fan-out's parameters once per visited name registered to that card, in
visit order. A card that no visited name maps to logs nothing.

## Model

| member | source | states |
|---|---|---|
| Comm.FrameShape | pygascard/comm.py:149-164 | a frame exists exactly for an ASCII command; decoded, it is the command followed by "\r\n", and it contains the terminator |
| Comm.AsciiRoundTrip | pygascard/comm.py:160-209 | ASCII decoding undoes the encoding `_write` applies, and encoding undoes the decoding `_readline` applies |
| Comm.AwaitChunk | pygascard/comm.py:176-182 | a read window times out exactly when every poll of `_read()` found nothing waiting; otherwise it yields the first non-empty poll |
| Comm.ReadBuffer | pygascard/comm.py:172-207 | the two loops of the reader compute exactly the alignment-then-accumulation specification over the read windows |
| Comm.AlignKeepsLeadIn | pygascard/comm.py:186-189 | once the buffer starts with one of the seven lead-ins, alignment stops, the buffer is kept and accumulation continues from it |
| Comm.AlignDiscardsOnEol | pygascard/comm.py:190-194 | a terminator seen before any lead-in drops the whole buffer, bytes after the terminator included; the next line is then accumulated from empty with no lead-in check |
| Comm.AlignTimeoutReturnsBuffer | pygascard/comm.py:183-184 | a timeout during alignment returns the unaligned buffer as it stands, the empty line when nothing arrived |
| Comm.AccumulateReturnsFirstTerminated | pygascard/comm.py:195-209 | the line returned is the first buffer that holds "\r\n", returned whole with terminator and trailing bytes, and exactly the windows it used are consumed |
| Comm.AccumulateTimeoutRaises | pygascard/comm.py:200-207 | a timeout before the terminator during accumulation makes `line += c` raise rather than return |
| Comm.SerialDevice.constructor | pygascard/comm.py:78-127 | a new transport is not open (`isOpen` false, `closed` false), has sent nothing and has the given input pending |
| Comm.SerialDevice.Write | pygascard/comm.py:149-164 | an ASCII command appends exactly its frame to what was sent; a non-ASCII one raises the encoding error and sends nothing; the input is untouched |
| Comm.SerialDevice.Readline | pygascard/comm.py:166-209 | the reply and the remaining input are those of the read specification; `isOpen` stays set exactly when the read raised `TypeError`; nothing is sent |
| Comm.SerialDevice.WriteReadline | pygascard/comm.py:240-287 | the same read as `_readline`, and nothing is sent, because the `_write` coroutine is never awaited |
| Comm.SerialDevice.Close | pygascard/comm.py:293-296 | closing clears `isOpen` and closes the port, leaving the input and the sent log unchanged |
| Records.ConvertTokens | pygascard/device.py:127-131 | the in-place conversion loop keeps the length and each token's text, and marks a token numeric exactly when `float()` accepts it |
| Records.ZipAt | pygascard/device.py:132 | `dict(zip(labels, df))` has exactly the first min(\|labels\|, \|df\|) labels as keys; a label not repeated later in that range is bound to the value at its own position |
| Records.CollectHits | pygascard/device.py:279-283 | the nested loops over requests, table entries and labels collect the matches in loop order |
| Records.HitsExactly | pygascard/device.py:279-283 | the collected matches are exactly the (request, entry, label) positions where the request equals the label, in loop order |
| Device.ParseMode | pygascard/device.py:49-58 | a string is accepted exactly when it is one of the eight codes of `_MODES`, and it names the mode whose code it is |
| Device.ReaderFor | pygascard/device.py:285-293 | a mode code has a reader in `MODES_FUNC` exactly when it is one of the seven codes other than D, and the reader is that mode's |
| Device.LeadCheckPasses | pygascard/device.py:125-257 | the N, E1, X and U readers accept a first token that contains the mode's letter; the N1, C1 and O1 readers need the exact code among the first two tokens |
| Device.ModeReplyFields | pygascard/device.py:122-132 | a decoded reply binds the first min(\|labels\|, \|tokens\|) labels, each to the token at its own position once NULs are removed, as a number exactly when `float()` accepts it |
| Device.UserInterfaceGasCheck | pygascard/device.py:249-258 | once the lead check passes, the user-interface reader succeeds exactly when the third token is CO, CO2 or CH4 as text |
| Device.HandshakeOutcome | pygascard/device.py:74-85 | on a `/dev/` port the handshake succeeds exactly when the cleaned reply has a first token containing "U"; an empty reply is reported as no device |
| Device.HandshakeInfo | pygascard/device.py:80-81 | the device info binds the user-interface labels to the raw tokens, position by position, with no numeric conversion |
| Device.SetPlanExactly | pygascard/device.py:309-314 | there are as many planned writes as (parameter, entry, label) matches; a write is planned exactly when some match carries that entry's mode, the code at the label's index and the parameter's value; a name that matches nothing plans no write |
| Device.SetRunWritesEachField | pygascard/device.py:315-320 | over distinct valid modes, every field command of the visited modes is written, and at most one mode switch precedes each mode's writes |
| Device.WriteRunOutcome | pygascard/device.py:319-320 | writing the commands in turn passes exactly when every command is ASCII, and otherwise stops with the encoding error |
| Device.SetRunErrors | pygascard/device.py:316-320 | a run of `set` fails only with "Invalid Mode" from `_set_mode` or the encoding error from `_write` |
| Device.SetRunOutcome | pygascard/device.py:316-320 | a run of `set` passes exactly when every visited mode is in `_MODES` and all of its planned commands are ASCII |
| Device.SetRunAnswers | pygascard/device.py:312-321 | a run that visits only planned modes, and all of them when it passes, has the outcome `SetAnswer` allows: a pass exactly when every planned mode is in `_MODES` and every planned command is ASCII |
| Device.SetRunCoversPlan | pygascard/device.py:315-320 | when the visit order enumerates all planned modes, the field commands written are exactly the planned ones, as a multiset |
| Device.WriteRunStops | pygascard/device.py:318-319 | once a write raises, no later command is written |
| Device.FirstMissing | pygascard/device.py:297 | the name for which `ret[name]` raises is a requested name missing from the record; there is none exactly when every name is present |
| Device.NamesList | pygascard/device.py:296 | the names grouped under a mode are exactly the names paired with it |
| Device.ModesListExactly | pygascard/device.py:279-284 | the (mode, name) pairs of `get` cover exactly the modes that own a requested name and exactly the requested names the table knows |
| Device.UnknownNameIgnored | pygascard/device.py:279-283 | a requested name that no table entry lists adds no (mode, name) pair, so `get` ignores it |
| Device.GetRunErrors | pygascard/device.py:294-297 | the only KeyError `get` raises names a visited mode without a reader or a paired name missing from its mode's record; an unknown name never raises |
| Device.GetRunKeys | pygascard/device.py:294-297 | a successful run of mode reads holds exactly the paired names of the modes visited |
| Device.Gascard.constructor | pygascard/device.py:36-58 | a new card keeps its transport, device info and table, and believes it is in user-interface mode |
| Device.Gascard.NewDevice | pygascard/device.py:61-85 | the card exists exactly when the handshake on the reply to "U" succeeds; otherwise the handshake's error is raised; a new card has sent only "U\r\n" and is in mode U |
| Device.Gascard.GetMode | pygascard/device.py:87-99 | the reply's first two characters, stripped, are returned when they name a mode, and "Invalid Mode" is raised otherwise; as written the `_current_mode` cache is not updated; the transport's `isOpen` stays set exactly when the read raised TypeError |
| Device.Gascard.GetModeTracked | pygascard/device.py:87-99 | as intended: a reported mode also becomes the cached mode |
| Device.Gascard.SetMode | pygascard/device.py:101-112 | a mode outside `_MODES` raises "Invalid Mode" with no write and no change; otherwise its code is written and becomes the cached mode |
| Device.Gascard.ReadMode | pygascard/device.py:114-258 | each reader switches mode only when the cache names another, reads one line and decodes it; afterwards the cache names the reader's mode even when decoding fails, and the transport's `isOpen` stays set exactly when the read raised TypeError |
| Device.Gascard.Decode | pygascard/device.py:114-258 | the reader's tokenising, lead check, float test and gas check compute the mode reply specification on the line read, or pass on the read's error |
| Device.Gascard.Get | pygascard/device.py:260-298 | no names reads the normal-mode record, switching first only when the cache names another mode; otherwise the result, the frames sent, the input consumed and the mode cache are those of the run specification over the visit order, which reads each mode owning a requested name exactly once; a complete record holds exactly the requested names the table knows; no `set` is logged; the result is `GetReply` over the visit order from the mode cache and pending input the card had, and the visit order is one `GetOrder` allows; the mode cache and input it leaves are `GetLeaves` of the same |
| Device.Gascard.ReadGroups | pygascard/device.py:284-297 | the result, the frames sent, the input consumed and the mode cache are those of the run specification; each distinct mode of the pairs is read at most once, and a complete result has read all of them and has exactly the paired names as keys |
| Device.Gascard.Set | pygascard/device.py:300-321 | nothing is read; a missing code raises IndexError before any write; otherwise each planned mode is visited once, with a switch only when the cache differs, and the frames sent are exactly those of the run specification; the outcome is the one `SetAnswer` allows, so `set` passes exactly when every planned mode is in `_MODES` and every planned command is ASCII; the transport is neither closed nor opened |
| Device.Gascard.Zero | pygascard/device.py:323-333 | `set` of the zero-gas correction factor to the empty value |
| Device.Gascard.Span | pygascard/device.py:335-347 | `set` of the span-gas correction factor to the value |
| Device.Gascard.TimeConst | pygascard/device.py:349-360 | `set` of the time constant to the value |
| Device.Gascard.WriteAll | pygascard/device.py:318-319 | the commands are written in order until one cannot be encoded, and exactly their frames are sent |
| Util.ProbeVerdictIff | pygascard/util.py:73-88 | a reply identifies a Gascard exactly when it has at least three tokens once NULs are removed; the first token is not checked |
| Util.IsGascardDevice | pygascard/util.py:57-88 | the probe returns what the probe specification gives for the port and its input |
| Util.FindDevices | pygascard/util.py:48-54 | the loop computes the scan specification over the port list |
| Util.ScanStops | pygascard/util.py:51 | once a probe raises, the scan fails whatever follows |
| Util.ScanExactly | pygascard/util.py:48-54 | a complete scan maps exactly the `/dev/` ports whose reply has three or more tokens, each to "Gascard"; the scan fails exactly when some probe raises |
| Daq.Registry.Put | pygascard/daq.py:65-67 | the name is bound to the card; a new name goes last and an existing one keeps its place |
| Daq.Registry.Delete | pygascard/daq.py:78 | exactly that name is removed, and the other names keep their order |
| Daq.TargetsExactly | pygascard/daq.py:112-118 | a blank id targets every registered card in registration order; otherwise the listed ids, a string id being split on whitespace |
| Daq.AddPlanLine | pygascard/daq.py:57-60 | a "Name Port" string adds one card on that port under that name |
| Daq.FirstRejected | pygascard/daq.py:61-67 | `add_device` stops at the first entry whose handshake fails; every entry before it is admitted |
| Daq.NewNamesExactly | pygascard/daq.py:62-67 | the names `add_device` appends to the registry are exactly the entry names not registered before, each once |
| Daq.RemoveRunExactly | pygascard/daq.py:76-79 | removal succeeds exactly when the names are registered and listed once; the names left are the registered ones minus those removed |
| Daq.DAQ.constructor | pygascard/daq.py:15-29 | a new front end empties the global registry |
| Daq.DAQ.Init | pygascard/daq.py:31-46 | the registry holds exactly the entries admitted before the first failed handshake, listed in entry order; a port entry's card carries the handshake's device info, the given code table and number test, caches mode U, has read no mode and logged no `set`, and its transport has sent only the "U" request and holds the input left after its reply |
| Daq.DAQ.AddDevice | pygascard/daq.py:48-68 | entries are installed in order under their names until a handshake fails; an existing name keeps its place with the new card, new names are appended in entry order, a port entry's card is opened by the call with the handshake's device info, the given code table and number test, caches mode U, has read no mode and logged no `set`, and its transport has sent only the "U" request and holds the input left after its reply; other registered cards are unchanged |
| Daq.DAQ.RemoveDevice | pygascard/daq.py:70-79 | the named transports are closed and exactly those names removed; an absent name raises KeyError and stops the loop; the remaining names keep their order; the cards left are unchanged, and so is every transport left that no removed name shares |
| Daq.DAQ.Get | pygascard/daq.py:108-119 | the cards are asked one after another and their answers `fs` are what each card's own `get` returns (`GetEnded`); every ask resumes from the state the asks before it left (`AllResume`): a card's mode cache is what its previous ask left, or its cache before the call, and its transport's input is what the previous ask of a card on that transport left, or the input before the call; every answer but the last is a record; a failed answer is the result's error; a failure with no failed answer is KeyError for the first unregistered target; a complete result asks every target and maps each to the record of its last ask, holding exactly the requested names its table knows; every target registered and every answer a record means success; no card logs a `set` |
| Daq.DAQ.Collect | pygascard/daq.py:112-118 | the loop over the targets ends as `GetEnded` says, every ask resuming from what the asks before it left (`AllResume`), with no `set` logged and the registry unchanged |
| Daq.DAQ.Query | pygascard/daq.py:113-114 | one ask extends the answers with what that card's `get` returns; the ask resumes from the state the earlier asks left, and afterwards every registered card and transport holds the state the asks so far left it in (`Current`) |
| Daq.DAQ.Ask | pygascard/device.py:260-298 | a card's `get` seen from the registry: the record is `GetReply` over a visit order `GetOrder` allows, from the card's mode cache and pending input before the call; the card's mode cache and its transport's input become what `GetLeaves` says the run leaves; every other card's mode cache and every other transport's input are unchanged; no `set` is logged |
| Daq.FetchesEach | pygascard/daq.py:112-118 | each ask's answer is what its card's `get` returns |
| Daq.AllResumeEach | pygascard/daq.py:112-118 | each ask of the fan-out resumes from the mode cache and transport input the asks before it left |
| Daq.FirstAskFrom | pygascard/daq.py:112-118 | a card no earlier ask reached answers from its mode cache before the fan-out, and from its transport's input before the fan-out when no earlier ask used that transport |
| Daq.LaterAskFrom | pygascard/daq.py:112-118 | a card asked again answers from the mode cache its previous ask left |
| Daq.CurrentStep | pygascard/daq.py:113-114 | an ask that changes only its card's mode cache and its transport's input, to what the ask leaves, resumes from the current state and keeps it current |
| Daq.Gathered | pygascard/daq.py:108-118 | the dictionary built from the answers has exactly the targets as keys |
| Daq.GatheredLast | pygascard/daq.py:113-118 | under a repeated name the later answer replaces the earlier one: a target's entry is the answer to its last ask |
| Daq.GatheredAnswers | pygascard/daq.py:113-118 | every entry of the dictionary holds exactly the requested names its card's table knows |
| Daq.EndedFacts | pygascard/daq.py:108-119 | a finished fan-out of `get` visits its targets in order with records; success covers every target and each entry holds the names its table knows; an unregistered target forces failure, which is KeyError when it is the next target; all registered and all answers records means success |
| Daq.EndedRecord | pygascard/daq.py:113-118 | in a complete result a target's entry is the record its card's `get` returned when last asked |
| Daq.DAQ.Set | pygascard/daq.py:121-148 | each card logs one `set` with the given parameters per visited name registered to it, in visit order, and the registry is unchanged; each visit's outcome is what that card's `set` answers, and every visit but the last passed; a complete run visits every target, every visited card's `set` passed and the result names exactly the targets; a failing card's error is the result's; otherwise a failure is KeyError for the first unregistered target, or AttributeError for a string command, which reaches no card |
| Daq.DAQ.Broadcast | pygascard/daq.py:142-147 | targets are served one at a time in order, each card logging the parameters once per visit; each visit's outcome is what that card's `set` answers; an error from a card's `set` stops the fan-out and is its result, and success means every visited card's `set` passed; otherwise a failure is KeyError for the first unregistered target, or AttributeError at the first registered target for a string command |
| Daq.DAQ.Deliver | pygascard/daq.py:145-146 | the loop over the targets for a map of values ends as `FanOutEnded` says: each visited card answered as its `set` does, no error means all passed, an error is the failing card's or KeyError for the first unregistered target |
| Daq.DAQ.Apply | pygascard/daq.py:143 | a card's `set` call is logged with exactly the parameters it was given, and its outcome is what that card's `set` answers |
| Daq.RepliesEach | pygascard/daq.py:142-147 | the outcome recorded for each visit of a fan-out is what the visited card's `set` answers to the parameters |
| Daq.CallsToOnly | pygascard/daq.py:142-147 | every call a fan-out makes on a card carries the fan-out's parameters |
| Daq.CallsToNone | pygascard/daq.py:142-147 | a card receives a call exactly when a visited name is registered to it |
| Daq.CallsToSingle | pygascard/daq.py:142-147 | when the visited names are distinct and no two names share a card, each visited card receives exactly one call |
| Daq.DAQ.Zero | pygascard/daq.py:150-174 | as written: with no id and a non-empty registry it raises UnboundLocalError and nothing changes; with ids each listed card visited logs `{"Zero Gas Corr Factor": ""}` once per visit, and the fan-out ends as `FanOutEnded` says: success means every visited card's `set` passed, an error is the failing card's or KeyError for the first unregistered id |
| Daq.DAQ.ZeroIntended | pygascard/daq.py:150-174 | as intended: every target, all registered cards for a blank id, is visited in order and logs `{"Zero Gas Corr Factor": ""}` once per visit; untargeted cards log nothing; the fan-out ends as `FanOutEnded` says, so success means every visited card's `set` passed |
| Daq.DAQ.Span | pygascard/daq.py:176-201 | as written: the same UnboundLocalError with no id, with nothing changed; with ids each listed card visited logs `{"Span Gas Corr Factor": val}` once per visit, and the fan-out ends as `FanOutEnded` says: success means every visited card's `set` passed, an error is the failing card's or KeyError for the first unregistered id |
| Daq.DAQ.SpanIntended | pygascard/daq.py:176-201 | as intended: every target, all registered cards for a blank id, is visited in order and logs `{"Span Gas Corr Factor": val}` once per visit; untargeted cards log nothing; the fan-out ends as `FanOutEnded` says, so success means every visited card's `set` passed |
| Daq.DAQ.TimeConst | pygascard/daq.py:203-221 | every target is visited in order and logs `{"Time Constant": val}` once per visit; the fan-out ends as `FanOutEnded` says: a pass means every visited card's `set` passed, an error is the failing card's or KeyError for the first unregistered target |

## Left out

- Serial I/O and async plumbing: the stream, `anyio` timeouts, `async with` reopening and checkpoints. The port is its sequence of read outcomes, and a write timeout in `_write` is not modelled.
- `_read` with an explicit length, `_flush` and `open` are not used by the core and are not modelled.
- `float()` parsing and float values: a parameter decides whether a token is numeric, and the token text is kept.
- Loading codes.json: the code table is a parameter, kept in file order.
- Formatting of `set` values: values are modelled as the strings that `f"{code}{value}"` writes.
- Dict insertion order of records: records are maps.
- `glob.glob` port enumeration: the scan takes the port list as a parameter.
- `DAQLogging`, `gas_correction`, `get_device_type` and `get_version` have no behaviour to model. `DAQ.dev_list` only returns the registry.
- Gascard.Get: a string argument, which Python iterates character by character, is not modelled; requests are lists of names.
- Daq.DAQ.AddDevice: entries of a mapping are required to have distinct names, as dict keys are.
- Daq.DAQ.AddDevice: the order in which a mapping's entries are visited is the order given.
- Daq.DAQ.Set: what each card receives is stated as its logged `set` parameters; the frames each card then writes are stated by the card's own `set` contract, not restated at the registry level. The same holds for Broadcast, Zero, ZeroIntended, Span, SpanIntended and TimeConst.
- Daq.DAQ.RemoveDevice: a string argument, which Python iterates character by character, is not modelled; the names are a list.
- Daq.DAQ.AddDevice: entries whose value is neither a string nor a `Gascard` are skipped by the source; the model's entries are only ports and cards, so this case does not arise.
- Daq.DAQ.Get: an explicit `id=None` is not modelled; an id is a string or a list. The same holds for Set, Zero, Span and TimeConst.
- Device.Gascard.Get: the contract states that the transport is not closed, but not the `isOpen` flag after its several reads.
- Device.Gascard.ReadGroups: the contract states that the transport is not closed, but not the `isOpen` flag after its several reads.
- Comm.SerialDevice.Write: after `_readline` raises `TypeError`, `isOpen` stays true while its `async with` has closed the stream, so the next `_write` sends on a closed stream and fails; the model's Write sends regardless of `isOpen`, because threading that failure through every card operation was not done.
- Device.Gascard.GetMode: the separate `current_mode` attribute it assigns is modelled as the field `reportedMode`.

## Findings

| source | as written | input that shows it | evidently intended | confidence | as-written member | corrected member |
|---|---|---|---|---|---|---|
| pygascard/device.py:95-96 | `_get_mode` assigns `self.current_mode`, a new attribute, and not the `_current_mode` cache | a card in mode U whose reply reads "N ..." reports "N", yet the cache still says "U" | the reported mode becomes the cached mode | not executed | Device.Gascard.GetMode | Device.Gascard.GetModeTracked |
| pygascard/daq.py:165-169 | `zero` with no id indexes `dev_list[i]`, and `i` is only bound by the later loop | `zero()` with one registered card raises UnboundLocalError before any write | `dev_list[dev]`, zeroing every card | not executed | Daq.DAQ.Zero | Daq.DAQ.ZeroIntended |
| pygascard/daq.py:192-196 | `span` with no id indexes `dev_list[i]` in the same way | `span(0.5)` with one registered card raises UnboundLocalError before any write | `dev_list[dev]`, spanning every card | not executed | Daq.DAQ.Span | Daq.DAQ.SpanIntended |
