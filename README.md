# Seha chat service — a Dafny model of `main.py`

Seha is a small Flask service for emotion research. A user logs in by
name. Each chat message is sent to a language model together with a
system prompt and the user's last ten exchanges. The reply is stored as a
new conversation turn. The persona prompt asks the model to end every
reply with a line such as `#STATE {"comfort": 0.0, "trust": 0.0}`.
`parse_emotion_state` extracts that object. When it is truthy, it is kept
as a research record. A user can read their research records back.

The project models three parts of `main.py`:

- `annotation.dfy` (module `Annotation`) is the state extractor
  `parse_emotion_state`. It takes `'#STATE' in message` and
  `message.split('#STATE')[1]`, then Python's `str.strip()`, then the
  regular-expression search `\{[^}]+\}`, then the decode. It is written as
  pure functions, with lemmas about where the marker is found, which
  fragment the search returns, and what the whole parse yields.
- `json.dfy` (module `Json`) holds the values `json.loads` returns and
  Python's truth value of them. It also holds a decoder and an encoder for
  the one shape the prompt asks for, an object of numbers, with the round
  trip `Decode(Encode(ms))` proved. The extractor takes the decoder as a
  parameter. This subset decoder is used for the end-to-end lemmas.
- `context.dfy` (module `Context`) is the message list that `chat` sends.
  The method `BuildContext` is the source's loop. The function
  `ContextWindow` is its specification, with lemmas on the window's shape.
- `store.dfy` (module `Store`) is the per-user store and the session. The
  class `App` holds the store map and the optional logged-in name. Its
  methods are `Login`, `Chat` and `ResearchData`. Each states the new state
  in terms of the old one, and each keeps the invariant `Valid`.
  `RecordExchange` specifies the record update of a successful chat.
- `wrappers.dfy` holds `Option` and `Result`.

The text after the marker is the segment between the first and the second
`#STATE`, not everything after the first one. This is what
`split('#STATE')[1]` does, and the model follows it
(`Annotation.SegmentBetweenMarkers`). A state object placed after a second
marker is therefore never read.

## Model

| member | source | states |
|---|---|---|
| Annotation.Contains | main.py:122 | `'#STATE' in message`: some position holds the marker. It is the reference that `MarkerSegment` and `ParseEmotionState` are stated against. |
| Annotation.IndexOf | main.py:122-123 | The first occurrence of a pattern at or after a position: it occurs there, none occurs before it, and `None` means none occurs at all. |
| Annotation.MarkerSegment | main.py:122-123 | `None` exactly when the message holds no `#STATE`. |
| Annotation.NoHashNoMarker | main.py:122 | A text without `#` holds no marker. |
| Annotation.NextMarkerAt | main.py:123 | The search for the marker lands on the first occurrence after a marker-free stretch. The marker's single `#` rules out overlapping earlier matches. |
| Annotation.SegmentAfterOnlyMarker | main.py:123 | With exactly one marker, the segment is all the text after it. |
| Annotation.SegmentBetweenMarkers | main.py:123 | With a second marker, the segment is exactly the text between the first two markers. |
| Annotation.TextAfterSecondMarkerIgnored | main.py:123-131 | Whatever follows a second marker has no effect on the parsed state. |
| Annotation.IsSpace | main.py:123 | The characters `str.strip()` removes: the 29 code points for which Python's `str.isspace` holds. |
| Annotation.StripLeading | main.py:123 | The result is a suffix of the input, every dropped character is Python whitespace, and the result does not start with whitespace. |
| Annotation.StripTrailing | main.py:123 | The result is a prefix of the input, every dropped character is Python whitespace, and the result does not end with whitespace. |
| Annotation.Strip | main.py:123 | The result is no longer than the input and has no whitespace at either end. |
| Annotation.StripSlice | main.py:123 | The stripped text is a slice of the input with only whitespace before and after it. |
| Annotation.IsFragment | main.py:126 | The reference match relation of `\{[^}]+\}`: a `{`, then at least one character and no `}`, then a `}`. The search functions are proved against it. |
| Annotation.NextClose | main.py:126 | The first `}` at or after a position, or `None` when there is none. |
| Annotation.MatchEnd | main.py:126 | A match of `\{[^}]+\}` starting at a position ends here, and `None` means no match starts there. |
| Annotation.SearchFrom | main.py:126 | The leftmost start with a match, and its end. No start before it has a match. `None` means no match exists. |
| Annotation.FindFragment | main.py:126-127 | A found fragment is `{`, at least one character with no `}`, then `}`. `None` exactly when the text has no match. |
| Annotation.FragmentEndUnique | main.py:126 | A start has at most one match, ending at its first `}`. |
| Annotation.FindFragmentLeftmost | main.py:126-127 | The search returns exactly the leftmost match. |
| Annotation.FragmentAtStart | main.py:126-127 | Text that starts with a whole match yields that match, whatever follows. |
| Annotation.NestedObjectTruncated | main.py:126 | A nested object is cut at the inner object's closing brace. |
| Annotation.StripKeepsFragment | main.py:123-126 | Stripping never changes which fragment is found. |
| Annotation.StateFragment | main.py:122-127 | No marker means no fragment, a fragment has the shape of a match, and with a marker the fragment is exactly what the search finds in the raw segment, stripping making no difference. |
| Annotation.ParseEmotionState | main.py:119-131 | No marker gives `None`. When a fragment is found the result is exactly the decoder's result on it, and when none is found the result is `None`. |
| Annotation.FragmentAfterMarker | main.py:119-131 | A reply whose only marker is followed by a space and a whole match gives the decoder that match. |
| Annotation.FoundAfterMarker | main.py:119-131 | A reply whose only marker is followed by a space and braced text gives the decoder's result on what the search finds, or `None`. |
| Annotation.AnnotationRoundTrip | main.py:119-131 | A reply ending in the marker and the text of a non-empty object of numbers yields that object. |
| Annotation.EmptyBracesNotFound | main.py:126-131 | `#STATE {}` gives `None`, because the pattern needs a character between the braces. |
| Annotation.EmptyObjectFound | main.py:123-128 | `#STATE { }` gives the empty object. |
| Annotation.NestedStateRejected | main.py:121-131 | A state whose first value is an object gives `None`. The fragment is truncated and then refused by the decoder. |
| Annotation.TruncatedStateRejected | main.py:126-128 | A state that opens an inner object gives `None` whenever the decoder refuses the fragment cut at the inner closing brace. |
| Annotation.NestedLaterStateRejected | main.py:119-131 | A state whose value after one or more numbers is an object, as in `{"a": 1, "b": {"c": 2}}`, gives `None`. |
| Annotation.ExampleDecimal | main.py:119-131 | A reply ending in `#STATE {"v": 1.5}` yields the object with that number. |
| Json.Truthy | main.py:92 | Python's truth value of a decoded value: `None`, `False`, zero and empty strings, lists and objects are false. |
| Json.Decode | main.py:128 | A decoded value is an object whose values are numbers. |
| Json.DecodeRoundTrip | main.py:128 | Decoding the text of an object of numbers gives that object back. |
| Json.ParseMembersRoundTrip | main.py:128 | The members of an encoded object decode to themselves, in order, and parsing stops at the closing brace. |
| Json.ParseNumberRoundTrip | main.py:128 | A number's spelling decodes to the number. |
| Json.NestedValueRejected | main.py:126-128 | An object whose first member's value opens another object is refused. The text may have whitespace after the colon but none after `{` or before the colon. |
| Json.NestedMemberRefused | main.py:128 | A member whose value opens an object is not a member, alone or at the head of a member list. |
| Json.RefusedAfterMembers | main.py:128 | A member list is refused when a refused member follows one or more encoded number members. |
| Json.NestedLaterValueRejected | main.py:126-128 | An object whose value after one or more encoded number members opens another object is refused. |
| Json.EncodeMembersAvoids | main.py:126 | An encoded object's members hold no character outside its keys, digits and punctuation, so no `}` or `#`. |
| Context.Recent | main.py:68 | `conversations[-10:]`: `min(n, 10)` turns, which are the last ones in order. |
| Context.TurnMessagesAt | main.py:68-70 | Each turn becomes a user entry and then an assistant entry, in the order of the turns. |
| Context.ContextWindowShape | main.py:67-71 | There are `2*min(n,10)+2` entries. The system prompt is first and the new message last. Between them are the user and assistant texts of the last `min(n,10)` turns, oldest first. |
| Context.OlderTurnsIgnored | main.py:68 | Turns older than the last ten have no effect on the context. |
| Context.TurnMessages | main.py:68-70 | The appends of the loop: a user entry and then an assistant entry for each turn, in turn order, with `TurnMessagesAt` giving every entry's position. |
| Context.ContextWindow | main.py:67-71 | The system entry, then the user and assistant entries of `Recent(conversations)` in order, then the new message; `ContextWindowShape` states its length and every entry. |
| Context.BuildContext | main.py:67-71 | The loop builds exactly `ContextWindow`. |
| Store.ChatStatus | main.py:54-108 | The status is 200 exactly for a reply, 401 exactly when not logged in, and 500 exactly for an upstream error or a missing record. |
| Store.Recordable | main.py:92-96 | `if emotion_state:`: a parsed state is recorded exactly when it is present and truthy. |
| Store.ChatRequest | main.py:67-79 | The request carries the fixed model name, the token limit of 1000 and the context window of the stored turns and the new message. |
| Store.RecordExchange | main.py:84-100 | There is exactly one more turn, holding the message, the raw reply and its time. There is one more research record, holding the state, exactly when the state is truthy. Earlier turns and records are unchanged. |
| Store.UpdateRecord | main.py:84-100 | The in-place appends and the write-back give exactly `RecordExchange`. |
| Store.ExchangeKeepsResearchTruthy | main.py:91-96 | An exchange keeps every research record truthy. |
| Store.OverwriteKeepsValid | main.py:99-100 | Overwriting a record with one whose research records are truthy keeps the store valid. |
| Store.NextRequestCarriesExchange | main.py:64-88 | After an exchange, the next request carries it as the last user and assistant entries, just before the new message. |
| Store.EmptyStateReturnedNotRecorded | main.py:91-105 | A reply ending in `#STATE { }` returns the empty object as its state but adds no research record. |
| Store.App.Login | main.py:40-52 | Success exactly for a non-empty name. On success the session is that name, and a new name gets an empty record while an existing record stays. On failure nothing changes. `Valid` is kept. |
| Store.App.Chat | main.py:54-108 | Not logged in gives 401 and no change. A missing record gives a failure and no change. An upstream error gives 500 and no change. On a reply the user's record is replaced by `RecordExchange` and the reply and parsed state are returned. The session never changes, and `Valid` is kept. |
| Store.App.ResearchData | main.py:110-117 | Not logged in gives 401. Otherwise it returns the user's research records, or none when the user has no record. Under `Valid` every returned record is truthy. |

## Left out

- The Flask routing, `render_template` for the index page, request and response JSON marshalling, and the session cookie are not modelled. The session is an optional user name, and responses are datatypes.
- The model call (`client.messages.create` and `response.content[0].text`) is the parameter `upstream` of `Chat`. It maps a request to reply text or an error message, and every exception it can raise is its error. The request carries the fixed model name and token limit.
- `json.loads` is the parameter `decode` of `ParseEmotionState` and `Chat`. Any exception it would raise is `None`.
- Json.Decode: it is a subset of `json.loads`. It accepts only an object of numbers written without string escapes, exponents, `NaN` or `Infinity`. It keeps duplicate keys instead of keeping the last, and keeps a fraction exactly instead of rounding it to a float.
- `datetime.now().isoformat()` is the two parameters `turnTime` and `stateTime`.
- The text of `SEHA_PROMPT` is the constructor parameter `prompt`. The secret key, the API key and `app.run` are configuration.
- The auto-persisting containers of `replit.db` are not modelled. The store is a plain map whose user record is overwritten whole.
- Concurrency is not modelled. `app.run` starts a server that can handle requests on several threads, so two chats for one user can overlap and one update can be lost. The model treats each request as atomic.
- Store.App.Login: the name is a string or absent. A JSON value of another type as the name is not modelled.
- Store.App.Chat: the message is a string. An absent `message` field, which would be sent on as `None`, is not modelled. A record without a `conversations` or `research_data` key is not modelled either, because `login` always creates both.
