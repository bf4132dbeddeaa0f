# `/fare` slash-command handler, modelled in Dafny

The fare bot answers the chat command `/fare <pickup> to <dropoff>`. Its
handler `handle_fare` acknowledges the command, strips the command text,
rejects text without the delimiter `" to "` with a format hint, splits the
text at the first `" to "`, strips both halves, and broadcasts a
`*From:* … *To:* …` summary to the channel.

The model is three modules of pure functions and lemmas:

- `Wrappers` (`wrappers.dfy`): `Option`, standing for Python's `None`.
- `Text` (`text.dfy`): Python's no-argument `str.strip()`, `sep in s`, `s.find(sep)` and
  `s.split(sep, 1)` over `string` (`seq<char>`). Each comes with a
  characterization. `Strip` returns a stripped trim of its input, and any stripped trim
  equals `Strip` (`StripUnique`). `Find` returns the first occurrence. `SplitOnce`
  joins back to its input at the first occurrence.
- `Fare` (`fare.dfy`): the handler. `Parse` gives a `MalformedCommand`, a `MissingEndpoint`
  or a `Ride`. `ReplyFor` gives the one reply for each of those. `HandleFare` returns the
  handler's effects as a trace: `[Ack, Respond(reply)]`. The `ack` and `respond`
  callbacks are these events, not calls.

The main result is `ParseNeverMissingEndpoint`. The text is stripped before the delimiter
search, so any `" to "` found has non-blank text on both sides. The guard
"I need both a pickup and a dropoff address." at app.py:45-50 can therefore never fire.

Two facts about the code are easy to miss:

- The format hint contains backticks: ``Format: `/fare pickup address to dropoff address` ``.
- The input `"  to  "` strips to `"to"`, which contains no `" to "`. It gets the format
  hint, not the missing-endpoint reply (`BlankSidesExample`).

Whitespace is the set for which Python 3's `str.isspace()` holds: ASCII 0x09-0x0D and
0x1C-0x1F, the space, U+0085, U+00A0, U+1680, U+2000-U+200A, U+2028, U+2029, U+202F,
U+205F and U+3000.

## Model

| member | source | states |
|---|---|---|
| `Text.Strip` | app.py:31 | the result has no leading or trailing whitespace; it is a slice of the input with only whitespace cut off at either end; it is empty exactly when the input is all whitespace |
| `Text.StripUnique` | app.py:31 | any slice of `s` that has only whitespace cut off and is itself stripped is equal to `Strip(s)`, so the two properties pin down the result |
| `Text.TrimsAgree` | app.py:31 | two slices of the same string that each have only whitespace cut off and are each stripped are equal |
| `Text.StripStripped` | app.py:42-43 | stripping a string that has no leading or trailing whitespace returns it unchanged |
| `Text.StripIdempotent` | app.py:31 | stripping twice gives the same result as stripping once |
| `Text.Find` | app.py:34 | a returned index is where `d` occurs with no earlier occurrence; no index means `d` occurs nowhere |
| `Text.Contains` | app.py:34 | `d in s` holds exactly when `d` occurs in `s` at some index |
| `Text.SplitOnce` | app.py:41 | one part `[s]` exactly when the separator does not occur; otherwise two parts that join with the separator to `s`, split at its first occurrence |
| `Text.SplitLeftHasNoSeparator` | app.py:41 | the part before the split contains no separator |
| `Text.SeparatorInsideStripped` | app.py:31-45 | an occurrence of a separator that starts and ends with whitespace inside a stripped string has non-blank text before it and after it |
| `Fare.CommandText` | app.py:31 | `command.get("text") or ""`: the text is empty when the field is missing or `None`, and is the field's string otherwise |
| `Fare.ReplyDependsOnTextOnly` | app.py:31 | the reply depends on the payload only through that text, and a missing text behaves exactly like a `None` one |
| `Fare.Summary` | app.py:55 | the summary is `*From:* `, the pickup, a line break and `*To:* `, then the dropoff, each at its stated position |
| `Fare.SummaryDeterminesRide` | app.py:55 | two rides with single-line pickups that give the same summary are the same ride |
| `Fare.ResponseType.WireName` | app.py:36-54 | the requester-only reply is sent as `"ephemeral"` and the broadcast one as `"in_channel"`, and neither name stands for the other |
| `Fare.Parse` | app.py:31-50 | a malformed command exactly when the stripped text lacks `" to "`; a ride has a non-empty, stripped pickup and dropoff |
| `Fare.ReplyFor` | app.py:34-56 | the reply is ephemeral exactly when parsing did not give a ride |
| `Fare.HandleFare` | app.py:23-56 | every invocation acknowledges first and then sends exactly one reply |
| `Fare.ParseNeverMissingEndpoint` | app.py:31-50 | parsing never gives the missing-endpoint outcome, for any input |
| `Fare.ParseSplitsAtFirst` | app.py:41-43 | when `" to "` first occurs at `i` in the stripped text, the ride is the stripped text before `i` and the stripped text after the delimiter |
| `Fare.ParseJoined` | app.py:41-45 | a non-empty stripped pickup and dropoff joined by `" to "`, with no earlier delimiter, parse back to the same ride |
| `Fare.BlankTextGetsGuidance` | app.py:31-39 | a missing, `None` or all-whitespace text gets the ephemeral format hint |
| `Fare.GuidanceIffNoDelimiter` | app.py:34-39 | the ephemeral format hint is sent exactly when the stripped text lacks `" to "` |
| `Fare.BroadcastIffDelimiter` | app.py:34-56 | the reply is broadcast (`response_type` `"in_channel"`) exactly when the stripped text contains `" to "`, and is `"ephemeral"` exactly when it does not |
| `Fare.MissingEndpointNeverSent` | app.py:45-50 | no command ever gets the text "I need both a pickup and a dropoff address." |
| `Fare.DelimiterGetsSummary` | app.py:41-56 | for a delimiter first at `i`, the reply is `in_channel` with text `"*From:* " + pickup + "\n*To:* " + dropoff`, where both are the non-empty stripped parts around `i`, sent with `response_type` `"in_channel"` |
| `Fare.FirstMatchExample` | app.py:41 | `"A to B to C"` parses to pickup `"A"` and dropoff `"B to C"` |
| `Fare.UsageExample` | app.py:26 | `"45 2nd St San Francisco to SFO"` parses to pickup `"45 2nd St San Francisco"` and dropoff `"SFO"` |
| `Fare.BlankSidesExample` | app.py:31-39 | `"  to  "` is a malformed command and gets the format hint |

## Left out

- Environment variables and the construction of the Bolt `App` (app.py:8-18): process configuration and a foreign library.
- The Flask route and the local server run (app.py:60-73): HTTP plumbing.
- The `print` of the command text (app.py:32): logging only.
- `ack` and `respond` as callbacks into the chat platform: the model returns them as the events of a trace. Latency, and any failure of those calls, are not modelled.
- The payload fields are modelled as `map<string, Option<string>>`. A `text` field holding something other than a string or `None` is not modelled.
- Text.SplitOnce: requires a non-empty separator. Python's `split` raises `ValueError` for an empty one, and the handler only ever passes `" to "`.
- Deep-link building and geocoding: `app.py` contains no such code, so they are not part of this model.
