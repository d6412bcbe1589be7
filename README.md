# SpeakBox backend: validation, moderation and text clean-up

This project models the deterministic core of the SpeakBox (PrismEcho) backend in Dafny:

- the room-creation endpoint, with its length checks, moderation gating and in-memory `rooms` table;
- the room lookups and the moderation endpoint;
- the moderation service: a keyword blocklist, then the model's SAFE/UNSAFE verdict;
- the clean-up the language-model service applies to the model's replies, and the fallbacks it uses when there is no model or the call raises.

Every call to the Gemini model is an input of type `LlmReply.Reply`. `NoClient` means no API key was configured. `Failure` means the call, or reading its text, raised. `Answer(text)` carries `response.text`.

The modules follow the source files:

- `PyText` (pytext.dfy) holds the Python `str` operations used, over ASCII: `strip`, `strip(chars)`, `lower`, `upper`, `startswith`, `endswith`, `in`, `split('\n')`, `"\n".join` and `s[:n]`. It also holds their algebra: what `strip` removes, idempotence, and the split/join round trips.
- `Moderation` (moderation.dfy) models `ModerationService`.
- `LlmService` (llm_service.py's `LLMService`, in llm_service.dfy) models the summary and question clean-up.
- `Backend` (backend.dfy) models main.py. The module-level `rooms` dict is the class `RoomStore`. It holds a `map` and the keys in insertion order, since Python dicts keep that order and `get_rooms` reports it. `create_room` is a method that changes the store. Its validation (`CreateRoomError`), `get_room`, `get_rooms` and the moderation endpoint are functions.

Behaviours worth knowing, all modelled as written:

- The maximum-length messages say "under 50" and "under 200", but the checks are `> 50` and `> 200`. A 50-character title is therefore accepted.
- The minimum checks count the stripped text, and the maximum checks count the raw text.
- The opening question is generated from the raw topic, while the stored topic is stripped.
- A reply `"UNSAFE\n\n..."` rejects the text with an empty reason.
- A summary reply whose stripped form already starts with `•` is kept whole, so non-bullet lines after the first line stay in the summary; the bullet filter runs only for replies that do not start with a bullet.
- The room id is not checked for collisions. An existing key would be overwritten, keeping its place in the insertion order.

## Model

| member | source | states |
|---|---|---|
| `PyText.StripCharsExact` | backend/services/llm_service.py:231 | `strip(chars)` removes exactly the surrounding runs of those characters: a core that neither starts nor ends with one of them is recovered from any padding |
| `PyText.StripCharsIdempotent` | backend/main.py:95-96 | stripping a stripped text changes nothing |
| `PyText.StripCharsIgnoresPadding` | backend/main.py:66-73 | extra padding of stripped characters on either side never changes the stripped form |
| `PyText.Contains` | backend/services/llm_service.py:57 | `part in s` holds exactly when `part` occurs at some index of `s` |
| `PyText.JoinSplit` | backend/services/llm_service.py:177-178 | joining the pieces of `split('\n')` with `"\n"` gives back the text |
| `PyText.SplitJoin` | backend/services/llm_service.py:177-178 | splitting a join of newline-free lines gives back exactly those lines |
| `PyText.SecondPiece` | backend/services/llm_service.py:79-80 | `lines[1]` is the text between the first newline and the next newline or the end |
| `Moderation.AnyKeywordIn` | backend/services/llm_service.py:56-58 | the early-return search finds a match exactly when some keyword of the list is a substring of the text |
| `Moderation.CheckBlocklist` | backend/services/llm_service.py:54-59 | `(False, "Content contains prohibited terms.")` exactly when some keyword occurs in the lower-cased text, `(True, "")` otherwise |
| `Moderation.KeywordsAreLowerCase` | backend/services/llm_service.py:22-26 | every blocklist keyword is its own lower-case form |
| `Moderation.BlocklistIgnoresCase` | backend/services/llm_service.py:55-57 | two texts that differ only in letter case get the same blocklist verdict |
| `Moderation.BlocklistIgnoresUpperCase` | backend/services/llm_service.py:55-57 | upper-casing a text never changes its blocklist verdict |
| `Moderation.BlocklistCatchesAnyCasing` | backend/services/llm_service.py:22-58 | a keyword written in any mix of cases, at any position, is rejected with the prohibited-terms reason |
| `Moderation.ParseVerdict` | backend/services/llm_service.py:76-82 | the reply flags the text exactly when its stripped, upper-cased form starts with `UNSAFE`; a reply that does not flag it gives `(True, "")` |
| `Moderation.UnsafeReasonIsSecondLine` | backend/services/llm_service.py:78-81 | a flagged reply with a second line gives that line, stripped, as the reason |
| `Moderation.UnsafeSingleLine` | backend/services/llm_service.py:78-81 | a flagged reply of one line gives `"Flagged by AI moderation."` |
| `Moderation.ModerateContent` | backend/services/llm_service.py:61-87 | a blocklist rejection is returned unchanged whatever the model would say; with no client or on an exception the result is `(True, "")`; otherwise the parsed verdict; a safe result always has an empty reason |
| `LlmService.BulletLines` | backend/services/llm_service.py:177-178 | the filter keeps only bullet lines, keeps every bullet line as often as it occurs, and keeps the input order |
| `LlmService.CleanSummary` | backend/services/llm_service.py:173-181 | the cleaned summary is never empty |
| `LlmService.SummaryKeepsBulletLines` | backend/services/llm_service.py:176-181 | when the stripped reply does not start with `•`, the summary's lines are exactly its bullet lines in order; with none of them it is `"• Voice contribution recorded"` |
| `LlmService.LeadingBulletKeepsReply` | backend/services/llm_service.py:173-176 | when the stripped reply starts with `•`, the summary has exactly the lines of the stripped reply, non-bullet lines included |
| `LlmService.LeadingBulletKeepsOtherLines` | backend/services/llm_service.py:173-178 | a reply that strips to a line starting with `•`, a newline and any further line keeps both lines, whatever the second holds |
| `LlmService.SummarizeAudio` | backend/services/llm_service.py:152-187 | the transcript component is always `""` and the summary is never empty; `"Voice contribution"` without a client, `"• Voice contribution"` on an exception, and otherwise the cleaned reply (the bullet filter and the `"• Voice contribution recorded"` placeholder stated by the lemmas around it) |
| `LlmService.SummaryLeadsWithBullet` | backend/services/llm_service.py:173-187 | whenever a client exists, the first line of the summary is a bullet line |
| `LlmService.SummarizeVoice` | backend/services/llm_service.py:189-211 | without a client: the transcript itself up to 100 characters, otherwise its first 100 characters and `"..."` (103 in all); on an exception: `"• "`, the transcript's first 50 characters (all of it when shorter), `"..."`; otherwise the reply stripped |
| `LlmService.EnsureQuestionMark` | backend/services/llm_service.py:233-235 | the result ends with `?`, extends the text, and is one character longer exactly when the text lacked the final `?` |
| `LlmService.CleanQuestion` | backend/services/llm_service.py:228-237 | the cleaned question ends with `?` and never begins with a quote character |
| `LlmService.CleanQuestionKeepsCore` | backend/services/llm_service.py:228-235 | whatever runs of whitespace and then of quotes surround the reply's core, the cleaned question is that core, with `?` appended exactly when it lacks one |
| `LlmService.GenerateOpeningQuestion` | backend/services/llm_service.py:213-239 | always ends with `?` and never begins with `'` or `"`; without a client or on an exception it is `"What are your thoughts on " + topic + "?"` |
| `Backend.LengthError` | backend/main.py:65-77 | the four length checks in order, the first failure deciding the message; no error exactly when 3 <= stripped title, raw title <= 50, 10 <= stripped topic, raw topic <= 200 |
| `Backend.TitleCheckedBeforeTopic` | backend/main.py:66-70 | a title that fails a length check is reported as a title error whatever the topic is |
| `Backend.PaddingKeepsShortTitleShort` | backend/main.py:66 | whitespace padding never gets a too-short title past the minimum |
| `Backend.PaddingCountsAgainstMaximum` | backend/main.py:66-70 | whitespace padding counts against the maximum: a padded title is rejected as too long though its stripped form is unchanged |
| `Backend.CreateRoomError` | backend/main.py:65-86 | length errors come first; the room is admitted exactly when the lengths pass and both title and topic pass moderation |
| `Backend.TitleModeratedBeforeTopic` | backend/main.py:80-86 | a title rejected by moderation gives `"Title rejected: " + reason`, and the topic's moderation reply makes no difference |
| `Backend.TopicRejectedAfterTitle` | backend/main.py:84-86 | a topic rejected after the title passed gives `"Topic rejected: " + reason` |
| `Backend.BlockedTitleRejected` | backend/main.py:80-82 | a blocklisted keyword in the title, in any casing, rejects the room whatever the model replies |
| `Backend.FailsOpenWithoutModel` | backend/main.py:79-86 | without a model, a request of valid length that passes the blocklist is admitted |
| `Backend.NewRoomIsCustom` | backend/main.py:92-100 | the stored record has the id `custom-` + 8 hex digits, a stripped title of 3-50 and topic of 10-200 characters, a question ending in `?`, 0 participants and the default color |
| `Backend.GetRoom` | backend/main.py:114-143 | a stored room wins over a preset of the same id; `room-a` and `room-b` give their presets; any other id gives 404 "Room not found"; a found room carries the requested id |
| `Backend.PresetsStayReachable` | backend/main.py:117-141 | no room `create_room` stores can shadow a preset, so both presets stay reachable |
| `Backend.ModerateEndpoint` | backend/main.py:108-112 | `is_safe` is the moderation verdict; `reason` is `None` exactly when safe and the moderation reason otherwise |
| `Backend.RoomStore.constructor` | backend/main.py:19 | the table starts empty |
| `Backend.RoomStore.GetRooms` | backend/main.py:56-59 | every stored room exactly once, in insertion order, and nothing else |
| `Backend.RoomStore.CreateRoom` | backend/main.py:61-106 | any failure returns `success=False` with the error and leaves the table unchanged; success writes exactly the key `custom-` + hex, overwriting without a collision check, and returns that id and the stored opening question; the table invariant is kept |

## Left out

- The Gemini client and its calls are not modelled: they are a foreign, nondeterministic library. Each call's outcome is a `Reply` parameter. The services build their client once, so in the source either every call has a client or none does. The model admits mixed combinations too, and its contracts hold for them as well.
- The prompt templates and their `.format` substitution are left out. They are opaque text sent to the model.
- The `audio_bytes` and `mime_type` parameters of `transcribe_and_summarize_audio` are left out. They are only forwarded to the model.
- `os.getenv`, `load_dotenv` and the `print` warnings are left out. They are environment and logging.
- FastAPI routing, CORS, Pydantic validation, the `/` status endpoint and the `uvicorn` entry point are left out. They are framework plumbing. Only the request and response field shapes are kept.
- The WebSocket endpoint is left out. It is network I/O with concurrent broadcast. The `ConnectionManager` it uses (managers/connection_manager.py) is not part of this model.
- `uuid.uuid4()` is not modelled as randomness. Its 8-hex-character prefix is the `hex` parameter of `CreateRoom`.
- `async`/`await` is left out. Once the awaited results are inputs, the logic is sequential.
- Only ASCII is modelled. `strip` removes the ASCII characters for which `str.isspace()` holds, and `lower`/`upper` change only ASCII letters. Python also strips Unicode spaces such as U+0085 and U+00A0 and changes the case of non-ASCII letters.
