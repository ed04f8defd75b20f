# Dubai real-estate voice assistant: verified model of the webhook core

`app.py` is a FastAPI webhook behind a Twilio phone number. Each time the
caller finishes speaking, Twilio posts to `/voice`. The handler transcribes
the recording, looks the question up in a table of properties, asks a text
generator for an answer, has it spoken by a speech-synthesis service and
tells Twilio to play it and record the next question. This project models
the two pieces of that script that are logic rather than service glue, and
proves what they promise:

- **Property search** (`search_properties`), module `PropertySearch` in
  `search.dfy`. A row matches when the lower-cased query occurs in the
  lower-cased text of the row. The first three matching rows are kept, in
  table order. The reply is a fixed header and one line
  `- <Type> in <Location> for AED <Price>` per kept row, or a fixed apology
  when nothing matches. The filter is the function `Matching`. The reply
  is built by the method `SearchProperties`, whose loop (`AppendLines`)
  appends one line per row, as the source does with `response +=`. The method is proved equal to the function
  `SearchResult`. The text of a row (`str(row.values)`, a library rendering)
  is the parameter `rowText`, and the model assumes nothing about it.
- **Conversation memory and the `/voice` branches**, module `Voice` in
  `voice.dfy`. The class `VoiceAgent` holds the per-caller memory
  (`memory_store`) as a `map<string, seq<string>>` field, next to the
  read-only table. Its method `Step` is one webhook call. The outside
  services are inputs to it: the recording reference, what transcription
  produced (`Option<string>`), the generated answer and whether speech
  synthesis succeeded. It returns the Twilio instructions as a list of
  `Verb`s (`Say`, `Play`, `Record`), plus the context and prompt handed to
  the generator when that point is reached. `Step` is proved equal to the
  pure function `Respond`. Multi-call properties are proved about `Run`,
  which applies `Respond` to a sequence of requests.
- String helpers (`Text`, in `text.dfy`) and an `Option` type (`Wrappers`,
  in `wrappers.dfy`). `Text` holds lower-casing, substring, `str.join`,
  `str.split` and character counting.

Python's truthiness is modelled as written. `if not recording_url` and
`if not transcript` treat both a missing value and an empty string as
absent (`Present`).

Three facts about `app.py` shape the model:

- The handler keeps no session state beyond the memory, and its reply never
  depends on stored state. Its only test of the memory is whether the caller
  already has an entry (app.py:93). A caller gets an entry only at their
  first transcribed exchange. The handler branches on whether the request
  carries a recording (app.py:78) and on what transcription (app.py:87) and
  speech synthesis (app.py:125) return, so the model has no state
  enumeration.
- The user line is appended (app.py:95) before the context is built
  (app.py:99). So with ten earlier entries the context shows entries 7 to 10
  and the new question (`TenEarlierEntries`).
- A row's text is the rendering of all its values (app.py:35), so the model
  leaves that rendering abstract.

## Model

| member | source | states |
|---|---|---|
| `PropertySearch.Matching` | app.py:35 | the filter keeps no more rows than the table has, and each kept row matches the query |
| `PropertySearch.MatchingFromTable` | app.py:35 | every row the filter keeps is a row of the table |
| `PropertySearch.Listed` | app.py:38 | the listed rows are the first min(3, n) of the n matching rows |
| `PropertySearch.FormatLineShape` | app.py:41 | a row's reply line (`FormatLine`) is 16 characters plus its three fields, starts with "- " and the type, and ends with the price and a line break |
| `PropertySearch.FormatLines` | app.py:40-41 | the listed lines are empty exactly when no row is listed |
| `PropertySearch.FormatLinesAppend` | app.py:40-41 | the lines for two runs of rows are the lines of the first run followed by those of the second |
| `PropertySearch.SearchResult` | app.py:32-42 | the reply is the apology when no row matches, and otherwise the header followed by the lines of the listed rows |
| `PropertySearch.SearchProperties` | app.py:32-42 | the reply built line by line equals `SearchResult`: the apology when no row matches, otherwise the header followed by one formatted line per listed row, in order |
| `PropertySearch.AppendLines` | app.py:39-41 | the `response +=` loop leaves the text it started from (the header) followed by the reply lines of the given rows, in order |
| `PropertySearch.MatchingIsSelection` | app.py:35 | the filtered rows are exactly the rows at the matching positions, those positions strictly increase (table order), and a position is selected if and only if its row's lower-cased text contains the lower-cased query |
| `PropertySearch.ListsFirstMatches` | app.py:35-38 | the reply lists min(3, n) rows when n rows match, and the j-th listed row is the j-th matching row of the table |
| `PropertySearch.NoMatchIff` | app.py:35-37 | the reply is exactly "Sorry, no properties matched your request." if and only if no row matches |
| `PropertySearch.ReplyLineCount` | app.py:38-41 | when some row matches and the shown fields are single lines, the reply has exactly one line break per listed row plus the header's, so at most four |
| `PropertySearch.FormatLinesCount` | app.py:40-41 | when the type, location and price of each row hold no line break, the listed lines hold one line break per listed row |
| `PropertySearch.FormatLineCount` | app.py:41 | when the type, location and price hold no line break, a row's reply line holds exactly one line break |
| `PropertySearch.ListedOneLine` | app.py:38 | listed rows come from the table, so their shown fields stay single lines |
| `PropertySearch.EmptyQueryListsFirstRows` | app.py:34-38 | an empty query matches every row, so the reply lists the first three rows of the table |
| `PropertySearch.MatchesIgnoringCase` | app.py:34-35 | a row whose text contains a string equal to the query up to case matches |
| `PropertySearch.VillaExample` | app.py:32-42 | querying "villa" against the single row Villa / Dubai Marina / 2500000 gives the header followed by "- Villa in Dubai Marina for AED 2500000\n" |
| `PropertySearch.VillaLine` | app.py:41 | the reply line of that villa, character for character |
| `Text.Lower` | app.py:34 | lower-casing keeps the length and lower-cases each character |
| `Text.LowerKeepsOccurrence` | app.py:35 | an occurrence of the query in a row's text survives lower-casing of both |
| `Text.JoinEndsWithLast` | app.py:99 | a newline-joined list ends with its last item |
| `Text.SplitJoin` | app.py:99 | splitting the joined context at newlines gives back the entries when none holds a newline |
| `Voice.Present` | app.py:78-87 | a value counts as absent exactly when it is `None` or the empty string |
| `Voice.AudioFile` | app.py:123 | the audio file name is "response_", then the caller's number, then ".mp3" |
| `Voice.Context` | app.py:99 | the context is empty for an empty history and otherwise ends with the latest entry |
| `Voice.Window` | app.py:99 | the window has min(5, n) entries and they are the last ones of the history, oldest first |
| `Voice.BuildPrompt` | app.py:100-112 | the prompt starts with the persona and "Conversation so far:", the context follows it directly, then "\n\nUser asked: " and the question, the property data sits right before the closing "Answer:", and the prompt ends with "Answer:" |
| `Voice.Respond` | app.py:70-131 | every response is one Say or Play followed by Record(10 s, no transcription, beep, "/voice"); no recording: the welcome, memory unchanged and no prompt; recording without text: the retry prompt, memory unchanged and no prompt; otherwise only this caller's history changes, growing by "User: " + transcript then "AI: " + answer, the context is the last entries counting the question joined by newlines, the prompt is built from that context, the question and the `SearchResult` reply for it, and the directive is Play("response_" + caller + ".mp3") or the apology when synthesis failed |
| `Voice.ContextOfExchange` | app.py:93-99 | the context of a transcribed exchange is the last min(5, n) entries counting the new question, joined by newlines, so it ends with the new "User: " entry; when no entry holds a line break, splitting it at newlines gives those entries back |
| `Voice.ContextReadsBack` | app.py:99 | when no entry holds a line break, splitting the context at newlines gives back the last min(5, n) entries |
| `Voice.TenEarlierEntries` | app.py:95-99 | with ten earlier entries, the context shows entries 7 to 10 and the new question |
| `Voice.Run` | app.py:93-95 | over a sequence of calls no caller is ever removed from the memory, and only callers who made a request are added |
| `Voice.StepMemory` | app.py:87-95 | one call keeps every stored caller and adds its own exactly when the call is a transcribed exchange |
| `Voice.RunAddsTranscribedCallers` | app.py:87-95 | over a sequence of calls the memory's callers are exactly the earlier ones plus the callers with a transcribed exchange; a caller who only got the welcome or the retry is never stored |
| `Voice.VoiceAgent.constructor` | app.py:45 | the memory starts empty and the table is the one given |
| `Voice.VoiceAgent.Step` | app.py:70-131 | one `/voice` call updates the memory field in place and returns the instructions, context and prompt, all as `Respond` gives them |
| `Voice.HistoryOnlyGrows` | app.py:92-120 | over any sequence of calls, a caller's earlier history stays a prefix of the later one, which is longer by exactly two entries per transcribed exchange of that caller (assuming generation returns, see "## Left out") |
| `Voice.ExchangeKeepsAlternation` | app.py:95-120 | appending a question and its answer keeps a history alternating "User: " and "AI: " entries |
| `Voice.HistoriesAlternate` | app.py:92-120 | starting from an empty memory, every caller's history alternates "User: " and "AI: " entries, so each answer is stored once, right after its question (assuming generation returns, see "## Left out") |

## Left out

- Request and form parsing, and rendering the instructions as TwiML XML (app.py:71-76, app.py:82). The output is the `Verb` list.
- The caller's number is modelled as a string. A request without a `From` field (Python `None`, which would key the memory under `None`) is not modelled.
- Downloading the recording (`recording_url + ".wav"`) and Whisper transcription (app.py:84-85, app.py:133-144). Both are foreign services. Their outcome is the `transcript` input, with `None` for a failure.
- The text-generation call (app.py:113-119) is also a foreign service. Its answer, already stripped of surrounding whitespace, is the `answer` input. The model assumes generation succeeds. When it raises, the source has already stored the "User: " entry and answers with a server error. That path is not modelled.
- The speech-synthesis HTTP call and the mp3 file write (app.py:47-68). Their outcome is the `ttsOk` input.
- `Voice.Respond`: the case where the speech-synthesis request or the file write raises (app.py:61, app.py:63-64) is not modelled. Nothing catches that error, so the source answers with a server error and sends no Say, Play or Record. Both the "User: " and the "AI: " entries are already stored by then (app.py:95, app.py:120). The model's "every response ends with Record" holds only when synthesis returns.
- `Voice.HistoryOnlyGrows` and `Voice.HistoriesAlternate`: both assume that generation returns. When it raises, the source keeps a lone "User: " entry (app.py:95), which breaks both "two entries per exchange" and the alternation.
- `str(row.values)` (app.py:35) is numpy's array rendering. It is the abstract `rowText` parameter.
- `Text.Lower`: lower-cases ASCII letters only. Python's `str.lower` also folds non-ASCII letters. This is a simplification of case folding.
- Error messages printed to standard output (app.py:67, app.py:143).
- Loading the table with pandas from a fixed path, and the environment and API keys (app.py:12-29).
- The floating-point settings: temperature 0.7 and voice stability/similarity 0.75 (app.py:57-58, app.py:117).
- Concurrent webhook deliveries (app.py:71). The source does nothing to serialise them, and the model treats calls as sequential.
- `PropertySearch.ReplyLineCount`: covers only replies that list properties. The apology case is stated exactly by `NoMatchIff`.
