# Wheatnet Blade control module: parser and connection bookkeeping

A Dafny model of the protocol core of `src/main.ts`, the Companion module that
drives a Wheatstone WheatNet-IP "Blade" over TCP. Two parts are modelled.

- **The inbound parser** (`handleMessage` and `unescapeValue`), as pure
  functions on strings:
  - `Text` holds the JavaScript string operations the parser uses:
    `trim`, `indexOf` with `substring`, `split`, and a global character delete.
  - `Escaping` holds `unescapeValue`, the five global `/x -> x` replacements.
    It is proved equal to one left-to-right scan.
  - `Frame` holds the parser itself: bracket deletion, the `|` split, the
    type/channel cut, the parameter map with last-wins assignment,
    classification, and the update of the per-channel `umix` state.
  - `FrameCases` holds concrete frames from the module's comments, and
    general statements of what happens to escapes that the parser does not honour.
- **The heartbeat and reconnect bookkeeping** (`Connection`), as a state
  machine over an immutable record:
  - The record keeps the module's timer and socket handles.
  - It also keeps what the JavaScript runtime holds: scheduled interval and
    timeout timers, pending reconnect timeouts, and open sockets. A timer or
    socket the runtime holds without a module handle is a leak.
  - Every method is a transition function.
  - Timer firings, socket status reports and received data are explicit
    `Event`s. `Step` applies one event and `Run` applies a sequence.
  - `CallOnConnected` is an optional event. Nothing in the module calls
    `onConnected` (src/main.ts:275), and it is the only caller of
    `startHeartbeat` (:282). So, unless the host calls it, the heartbeat never
    starts, no heartbeat timeout fires and no reconnect is scheduled
    (`Connection.NoHeartbeatWithoutOnConnected`). The heartbeat results below
    are about runs in which it is called.

The model follows the code. Where that differs from the module's own
comments (the escape table repeated at src/main.ts:229 and :287, and the
example frames at :225-228) or has consequences worth stating, the model says so:

- Every `<` and `>` is deleted before anything else, including escaped ones.
  So the `/<` and `/>` replacements can never fire on a parsed value
  (`Frame.ParseIsClean`).
- The message is split on every `|`, including escaped ones, and only the
  first two fields are used. An escaped bar therefore ends the parameter
  string (`FrameCases.EscapedBarEndsParams`).
- Keys are cut at the first `:` even when it is escaped.
- A comma is not in the escape table, so a value cannot carry one: the
  parameter string is split at every comma (`FrameCases.EscapedCommaEndsToken`).
- Each received chunk is trimmed and parsed as one message; `socketBuffer`
  is declared as a buffer but only ever reset.
- Once `onConnected` has started the heartbeat, `sendHeartbeat` re-arms the
  heartbeat timeout, so the module's own heartbeats postpone the deadline as
  inbound data does. With a poll interval below the 10 second timeout, a
  silent peer is then never detected (`Connection.HeartbeatsMaskSilence`).
- A `UMIX`/`UMIXEVENT` frame with an empty channel is not a mixer update.

## Model

| member | source | states |
|---|---|---|
| Text.Trim | src/main.ts:252 | the result is a contiguous piece of the input, neither of its ends is ECMAScript whitespace, and an already trimmed input is returned unchanged |
| Text.TrimRemovesOnlyWhitespace | src/main.ts:252 | the trimmed text sits in the input with only ECMAScript whitespace before and after it, so nothing but leading and trailing whitespace is removed |
| Text.TrimUnique | src/main.ts:252 | any piece of the input with only whitespace around it and none at its ends is exactly the trimmed text, so the contract of `Trim` determines it |
| Text.IndexOf | src/main.ts:254 | -1 exactly when the character is absent; otherwise the position of its first occurrence |
| Text.CutAtFirst | src/main.ts:241-243 | the head holds no separator; without a separator the head is the whole text and there is no tail; with one, head + separator + tail is the input |
| Text.CutAtFirstUnique | src/main.ts:254-257 | any text written as head + separator + tail with no separator in the head is cut back into exactly that head and tail |
| Text.Split | src/main.ts:249 | there is at least one piece, no piece holds the separator, and joining the pieces with the separator gives back the input |
| Text.SplitJoin | src/main.ts:249 | splitting undoes joining, for pieces free of the separator |
| Text.SplitThree | src/main.ts:237 | three separator-free pieces joined by the separator split back into those three pieces |
| Text.Without | src/main.ts:232 | a character is in the result exactly when it is in the input and not deleted; the result is no longer than the input |
| Text.WithoutConcat | src/main.ts:232 | deleting characters distributes over concatenation, so the kept characters stay in order |
| Text.WithoutNothingToDrop | src/main.ts:232 | a text with nothing to delete is left unchanged |
| Escaping.ReplaceSlashed | src/main.ts:291 | one global `/c -> c` replacement never lengthens the text, adds no new characters, and leaves a text with no slash or no `c` unchanged |
| Escaping.Unescape | src/main.ts:289-296 | unescaping never lengthens a value, adds no new characters, and leaves a value without `/` unchanged |
| Escaping.ReplaceAfterScan | src/main.ts:291-295 | a further `/c` replacement after a scan over some escapable characters equals one scan that also treats `c` as escapable |
| Escaping.UnescapeIsSingleScan | src/main.ts:289-296 | the five sequential replacements equal one left-to-right scan in which `/` before any of `\| : ? < >` stands for that character, so nothing is unescaped twice |
| Escaping.UnescapeEachEscape | src/main.ts:287-296 | each of `/\|`, `/:`, `/?`, `/<`, `/>` on its own becomes the bare character |
| Escaping.UnescapeEscaped | src/main.ts:287-296 | one escape between slash-free text is replaced by the bare character and nothing else changes |
| Escaping.UnescapeEscapedColon | src/main.ts:227 | `mic/:Bob` unescapes to `mic:Bob` |
| Escaping.UnescapeKeepsOtherSlashes | src/main.ts:289-296 | a slash before a non-escapable character is kept (`a/b`), and `//:` reads `/:` |
| Frame.SplitFields | src/main.ts:231-237 | after every bracket is deleted, the target is the text before the first `\|` and the parameter string runs to the second `\|` or the end; there is no parameter string exactly when no `\|` remains; neither field holds a bar or a bracket |
| Frame.Param | src/main.ts:252-258 | a token gives nothing exactly when its trimmed text has no `:`; otherwise the key is the trimmed text before the first `:` and the value is the unescaped rest |
| Frame.Tokens | src/main.ts:249 | no tokens exactly when there is no parameter string; otherwise the comma-free tokens join back into the parameter string |
| Frame.AssignKeys | src/main.ts:251-259 | a key is in the parameter map exactly when some token yields it |
| Frame.AssignLastWins | src/main.ts:258 | a key's value is the one from the last token that yields that key |
| Frame.AssignFrom | src/main.ts:251-259 | every key and value in the map comes from one token |
| Frame.Parse | src/main.ts:230-260 | the type holds no `:`; there is a channel exactly when the target holds a `:`, and then target = type + `:` + channel, otherwise the type is the whole target; the parameters are the map built from the tokens |
| Frame.ParseIsClean | src/main.ts:232 | no parsed type, channel, key or value holds a bracket |
| Frame.Classify | src/main.ts:262-271 | a mixer update exactly for type `UMIXEVENT` or `UMIX` with a non-empty channel, system information exactly for type `SYS` |
| Frame.Apply | src/main.ts:262-264 | a mixer update adds or replaces its channel's entry with the parsed parameters and leaves every other channel alone; anything else leaves the state unchanged |
| Frame.HandleMessage | src/main.ts:230-272 | a `UMIX`/`UMIXEVENT` message with a non-empty channel installs its parsed parameters as that channel's whole entry and changes nothing else; any other message leaves the state unchanged; no channel is ever removed |
| Frame.ApplyIdempotent | src/main.ts:262-263 | handling the same parsed message twice is the same as handling it once |
| Frame.ApplyCommutes | src/main.ts:262-263 | messages that do not both update one channel can be handled in either order |
| Frame.ApplyLastWins | src/main.ts:263 | a later update of a channel replaces an earlier one entirely |
| Frame.ParamOfPlain | src/main.ts:252-258 | a token written as `KEY:VALUE` with a plain key parses back to that key and the unescaped value |
| Frame.FieldsOfFrameText | src/main.ts:232-237 | a frame `<TARGET\|TOKENS>` splits back into that target and those joined tokens, and without tokens into the target alone |
| Frame.PairsOfPlainTokens | src/main.ts:249-259 | the comma-joined tokens of plain parameters parse back to those keys with unescaped values, in order |
| Frame.ParseFrameText | src/main.ts:230-260 | a frame written from a type, an optional channel and plain parameters parses back to that type and channel, and to the parameters assigned in order, unescaped, last one winning |
| FrameCases.UmixEventExample | src/main.ts:225 | `<UMIXEVENT:1.2\|ON:1>` parses to type `UMIXEVENT`, channel `1.2`, parameters `ON` = `1`, and is a mixer update of channel `1.2` |
| FrameCases.EscapedColonInValue | src/main.ts:253-258 | as in `NAME:mic/:Bob`, an escaped colon in a value stays in the value and is unescaped there |
| FrameCases.EscapedBarEndsParams | src/main.ts:237 | an escaped bar ends the parameter string; the value keeps the slash and everything after the bar is dropped |
| FrameCases.EscapedCommaEndsToken | src/main.ts:249 | `/,` is no escape: the comma ends the token and the rest is read as further tokens |
| FrameCases.EmptyFrameExample | src/main.ts:232-243 | the heartbeat frame `<>` parses to an empty type, no channel and no parameters, and is not recognised |
| Connection.Init | src/main.ts:52-53 | before `init_tcp` runs, no timer or socket is held and the state is leak-free |
| Connection.Send | src/main.ts:213-222 | with a connected socket exactly `cmd` + CRLF is appended to the wire; otherwise nothing is written and nothing else changes |
| Connection.StopHeartbeat | src/main.ts:118-127 | both timer handles are cleared, and only the heartbeat timers are cancelled |
| Connection.ResetHeartbeatTimeout | src/main.ts:134-141 | the timeout handle becomes a fresh timer, and nothing but the timeout changes |
| Connection.StartHeartbeat | src/main.ts:110-116 | both heartbeat timers are armed, and the socket, the wire and pending reconnects are untouched |
| Connection.SendHeartbeat | src/main.ts:129-132 | writes what `send('<>')` writes, and leaves a timeout armed |
| Connection.DestroySocket | src/main.ts:146-149 | the socket handle is cleared and only its socket is closed |
| Connection.OnHeartbeatTimeout | src/main.ts:143-153 | reports one failure, leaves no timer handle and no socket, and adds exactly one pending reconnect |
| Connection.InitTcp | src/main.ts:156-166 | a socket exists afterwards exactly when host and port are set; it is new and not connected; the old socket is closed and the buffer cleared only when one existed; `Connecting` is reported; timers are untouched |
| Connection.OnData | src/main.ts:177-186 | the trimmed chunk is handled as one message; the timeout is re-armed only when one is armed, and never created |
| Connection.OnConnected | src/main.ts:275-284 | reports `Ok`, writes what `send('<SYS?>')` writes, and starts the heartbeat exactly when the poll interval is positive |
| Connection.OnSocketStatus | src/main.ts:168-170 | the reported status is recorded and the socket is connected exactly when it is `Ok` |
| Connection.Step | src/main.ts:110-186 | an event that cannot happen, such as a timer firing that is not scheduled, changes nothing |
| Connection.StopHeartbeatClearsAll | src/main.ts:118-127 | after stopping, no heartbeat timer of any kind is scheduled |
| Connection.ResetHeartbeatTimeoutKeepsOne | src/main.ts:134-141 | re-arming leaves exactly one timeout scheduled, and the one it replaces can no longer fire |
| Connection.StartHeartbeatArmsOneEach | src/main.ts:110-116 | after starting, exactly one interval timer and one timeout timer are scheduled |
| Connection.TimeoutFiredTearsDown | src/main.ts:143-153 | a firing timeout leaves no timer and no socket, reports one failure and adds exactly one pending reconnect |
| Connection.InitTcpAtMostOneSocket | src/main.ts:156-166 | the old socket is closed before the new one opens, so at most one socket is open |
| Connection.DataPostponesTimeout | src/main.ts:181-184 | inbound data cancels the armed deadline and arms a new one; with no timeout armed it schedules nothing |
| Connection.HeartbeatPostponesTimeout | src/main.ts:129-132 | a heartbeat writes `<>` and also cancels the armed deadline, whether or not anything arrived |
| Connection.StepPreservesValid | src/main.ts:110-186 | every event keeps the state leak-free and the two heartbeat timers armed together |
| Connection.RunPreservesValid | src/main.ts:110-186 | any sequence of events keeps the state leak-free |
| Connection.NoLeaks | src/main.ts:110-186 | from the start, whatever happens, at most one socket, one interval and one timeout exist, each held by a module handle |
| Connection.ReconnectAccounting | src/main.ts:150-152 | pending reconnects plus fired reconnects equal the initial count plus fired timeouts |
| Connection.WireOnlyGrows | src/main.ts:213-222 | writes only ever append to what has been written |
| Connection.NoHeartbeatWithoutOnConnected | src/main.ts:110-153 | from a state with no heartbeat running, a run without `onConnected` never arms either heartbeat timer and adds no reconnect |
| Connection.SilentUntilConnected | src/main.ts:217-221 | until a socket reports `Ok`, nothing is written; dropped sends are not queued |
| Connection.TimeoutStaysArmed | src/main.ts:134-141 | only inbound data, a heartbeat, a heartbeat restart or the timeout itself move the armed timeout; through any other events it stays ready to fire |
| Connection.HeartbeatsMaskSilence | src/main.ts:129-132 | after one or more heartbeats with nothing received, the deadline armed before them can no longer fire |

## Left out

- Real time: the 10000 ms heartbeat timeout, the 5000 ms reconnect delay, the poll interval as a duration, and `Date.now`/`lastHeartbeat`. Timers are scheduled or not, and their firing is an event.
- `Connection.OnSocketStatus`: the socket is taken to be connected exactly when the last status it reported was `Ok`. The handler at src/main.ts:168-170 only forwards the status; `isConnected` belongs to `TCPHelper`, so this is an assumption, and `Connection.SilentUntilConnected` depends on it.
- `TCPHelper` internals. Socket status changes and received data are input events. The `error` handler only logs and reports a status.
- Byte encodings. `send` converts with latin1 and the data handler decodes with utf8; strings here are sequences of characters.
- The `await` inside `sendHeartbeat` and `onConnected`. Each transition is atomic, so a timer or data callback that would run while a write is awaited is not interleaved with it. `Connection.StepPreservesValid`, `Connection.RunPreservesValid` and `Connection.NoLeaks` hold only under this atomicity. If the heartbeat timeout fires while the write at src/main.ts:130 is pending, `onHeartbeatTimeout` clears both timers. If that write then completes, :131 arms a timeout with no interval, which breaks the "armed together" half of `Valid` and leads to a second `ConnectionFailure` and a second reconnect. Whether such a write completes after the socket is destroyed is up to `TCPHelper`, which is not part of this model.
- Logging, `checkFeedbacks` and the status message texts. Statuses are recorded as an ordered trace of values.
- The host lifecycle: `init`, `destroy`, `configUpdated`, `getConfigFields` and the `update*` methods. So `destroy` leaving a pending reconnect uncancelled is not modelled.
- `subscribeUmix` and `unsubscribeUmix`. They only format a string for `send`.
- src/actions.ts. Its actions only format strings for `send`.
- The commented-out `escapeValue`. The module has no escaping function, so there is no escape/unescape round trip; `Frame.ParseFrameText` is the round trip for plain parameters.
- JavaScript object quirks of `paramObj` and of `state.umix`, such as the key `__proto__`. Both are plain maps here. In the source, `<UMIX:__proto__|ON:1>` sets the prototype of `state.umix` (src/main.ts:263) instead of adding an own entry, whereas `Frame.Apply` inserts the key `"__proto__"`.
- Non-numeric ports. `Connection.HasTarget` treats the port as an integer that is truthy when non-zero.
- The source's `<SRC:…>` and `<SYS|…>` comment frames as whole literal strings. They are covered in general form by `FrameCases.EscapedColonInValue`, `Frame.ParseFrameText` and `Frame.Classify`.
