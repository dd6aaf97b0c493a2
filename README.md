# Nanban AI core in Dafny

Nanban AI is a Tamil-speaking chat companion. The user picks a regional
dialect, the *slang*: CHENNAI, KOVAI, MADURAI, NELLAI, EELAM or COMMON. They
also pick a character, the *persona*: JALIANA, AMAITHIYANA, THELIVANA or
VILAKKAMAANA. The application then builds a language-model prompt for that
pair, sends the conversation, reads the reply aloud through a cloud
text-to-speech service and keeps users and messages in SQLite. This project
models the three modules that do this work.

- `brain.dfy` (module `Brain`) models the `NanbanBrain` class of `openai_brain.py`:
  - the fixed preamble;
  - the slang and persona rule tables;
  - the 24 example openers and their default;
  - the system-prompt template;
  - the message list sent for one chat turn (system prompt, the last ten history items, the user message);
  - the persona-dependent apology returned when the call fails.
- `voice.dfy` (module `Voice`) models the `VoiceHandler` class of `voice_handler.py`:
  - the dialect voices and persona prosody modifiers, with their fallbacks;
  - the emoji and whitespace clean-up;
  - the 500-character cut;
  - the SSML markup and its timed pauses;
  - the control flow of one synthesis request.
- `store.dfy` (module `Store`) models the `Database` class of `database.py`:
  - the three tables as fields of a class (`users`, `user_stats`, `conversations`);
  - the AUTOINCREMENT counters;
  - every query and update method.
- `pystr.dfy` (module `PyStr`) gives the Python string built-ins the core relies on:
  - `str.replace`: leftmost, non-overlapping;
  - `split()` and `join`;
  - `strip()`, with CPython's whitespace set;
  - `in`, the substring test.
- `wrappers.dfy` (module `Wrappers`) holds `Option`.

Remote services are function-typed parameters: the chat completion in
`Chat` and the speech synthesis in `TextToSpeech`. A `None` result stands
for an exception raised anywhere inside the call. Times written by
`CURRENT_TIMESTAMP` are a `now` parameter.

## Model

| member | source | states |
|---|---|---|
| Brain.NanbanBrain.constructor | openai_brain.py:11-113 | The model name is the one configured, and the preamble is the fixed base prompt: its eight paragraphs, a blank line apart. |
| Brain.NanbanBrain.ResolveSlang | openai_brain.py:118 | A known dialect gets its own rule from the table. An unknown one gets COMMON's rule. The result is always one of the table's rules. |
| Brain.NanbanBrain.ResolvePersona | openai_brain.py:119 | A known persona gets its own rule. An unknown one gets JALIANA's rule. The result is always one of the table's rules. |
| Brain.NanbanBrain.UnknownIdsResolveToDefaults | openai_brain.py:58-119 | An id missing from its table resolves to the COMMON or JALIANA record, written out field by field. |
| Brain.Fill | openai_brain.py:155-185 | A filled opener contains the user's name when one is given, and the opener's own form of address when the name is empty. |
| Brain.OpenerKeysComplete | openai_brain.py:155-185 | The opener table holds exactly the 24 pairs of a known dialect and a known persona, and no other key. |
| Brain.OpenerKeysCover | openai_brain.py:155-185 | Every pair of a known dialect and a known persona has an opener. |
| Brain.OpenerSlangsKnown | openai_brain.py:58-89 | Every dialect in the opener table is a key of the slang table. |
| Brain.OpenerPersonasKnown | openai_brain.py:92-113 | Every persona in the opener table is a key of the persona table. |
| Brain.NanbanBrain.ExampleOpening | openai_brain.py:152-188 | A pair in the table gets that opener filled with the name. Any other pair gets the default greeting. Either way the line contains a given name. |
| Brain.NanbanBrain.UnknownIdsGreetDefault | openai_brain.py:187-188 | The opener is looked up with the ids as given. An unknown dialect or persona gives `வணக்கம் <name or நண்பரே>!`, not COMMON's or JALIANA's opener. |
| Brain.PromptBlocks | openai_brain.py:121-148 | The template is ten pieces, from the preamble to the opener block, and every piece after the preamble is non-empty. |
| Brain.TemplateInOrder | openai_brain.py:121-148 | For any contents, the filled template begins with the preamble. The slang, character, name, rules and opener sections appear, in that order, at strictly increasing offsets. The opener block ends the text. |
| Brain.NanbanBrain.BuildSystemPrompt | openai_brain.py:115-150 | The model of `build_system_prompt`: the template filled with the resolved rules and the example opener. Its properties are stated by `PromptSectionsInOrder`, `NameClause` and `HeadersShowRawIds`. |
| Brain.NanbanBrain.PromptSectionsInOrder | openai_brain.py:115-150 | `build_system_prompt` has the same section layout, with the resolved rules and the example opener filled in. |
| Brain.NameLines | openai_brain.py:136-137 | Given the name lines at an offset, the text contains the name line and the "Remember and use" line when a name is given. With no name, it contains "Not provided yet" and the "Ask for their name" line. |
| Brain.NanbanBrain.NameClause | openai_brain.py:136-137 | The system prompt itself shows and uses a given name, or asks for one when the name is empty. |
| Brain.NanbanBrain.HeadersShowRawIds | openai_brain.py:126-131 | The SLANG and CHARACTER header lines show the ids as given, even when the rules shown under them are the defaults. |
| Brain.Window | openai_brain.py:203 | `history[-10:]`: the last `min(n, 10)` items, in order. |
| Brain.AsMessages | openai_brain.py:204-207 | Each history item becomes one message with the same role and content, in the same order. |
| Brain.HistoryMessages | openai_brain.py:202-208 | With no history, no messages. With history, the messages are the last `min(n, 10)` items, pointwise, in order. |
| Brain.RequestMessages | openai_brain.py:196-213 | The message list is the system prompt, then the history messages, then the user message. |
| Brain.BuildMessages | openai_brain.py:196-213 | The loop that appends history entries builds exactly `RequestMessages`. |
| Brain.RequestMessagesShape | openai_brain.py:196-213 | There are between 2 and 12 messages, and exactly 2 without history. |
| Brain.FallbackReply | openai_brain.py:231-237 | A persona whose id contains "JALIANA" gets the casual apology. Any other gets the neutral one. |
| Brain.FallbackForKnownPersonas | openai_brain.py:231-237 | Of the four personas only JALIANA gets the casual apology. So does any id ending in JALIANA. |
| Brain.NanbanBrain.Chat | openai_brain.py:190-237 | One completion call is made, with the configured model, the message list and a 500-token cap. Its content is returned; if it fails, the persona's apology is returned. |
| Voice.VoiceHandler.constructor | voice_handler.py:12-23 | The handler records whether speech is enabled. |
| Voice.ResolveVoice | voice_handler.py:88 | A known dialect gets its voice. Any other gets COMMON's: Wavenet-A, rate 1.0, pitch 0. |
| Voice.ResolveModifier | voice_handler.py:89 | A known persona gets its modifier. Any other gets JALIANA's: pitch +1, rate ×1.05. |
| Voice.FinalRate | voice_handler.py:108 | The final speaking rate (base rate times persona factor) lies in [0.8464, 1.2075] for every dialect and persona. |
| Voice.FinalPitch | voice_handler.py:109 | The final pitch (base plus adjustment) lies within ±3 semitones. |
| Voice.StripAll | voice_handler.py:140-143 | The emoji loop: each listed pattern removed in turn. Its property is stated by `StripAllAbsent`. |
| Voice.CleanText | voice_handler.py:137-148 | The model of `_clean_text_for_tts`: emoji removed, then `' '.join(text.split())`. Its properties are stated by `CleanTextForTts` and `CleanTextKeepsCleanText`. |
| Voice.StripAllAbsent | voice_handler.py:140-143 | Removing emoji that do not occur leaves the text as it is. |
| Voice.CleanTextForTts | voice_handler.py:137-148 | The cleaned text has no whitespace at either end, only plain spaces inside and never two spaces in a row. |
| Voice.CleanTextKeepsCleanText | voice_handler.py:137-148 | Text with none of the listed emoji and already single-spaced comes through the clean-up unchanged. |
| Voice.SpokenText | voice_handler.py:95-96 | Text of at most 500 characters is kept whole. Longer text becomes its first 500 characters plus "...". |
| Voice.InsertPauses | voice_handler.py:155-159 | The five `replace` steps, in the source's order. Their properties are stated by `NoPausePunctuationLeft`, `EllipsisIsOneLongPause`, `ExclamationIsPause`, `QuestionIsPause`, `LoneFullStopIsPause` and `CommaIsShortPause`. |
| Voice.CreateSsml | voice_handler.py:150-168 | The model of `_create_ssml`: the f-string around the paused text, then `strip()`. Its properties are stated by `SsmlShape` and `SsmlHasNoPausePunctuation`. |
| Voice.PauseStepAddsNoPunctuation | voice_handler.py:155-159 | No pause step brings in `!`, `?`, `.` or `,`. |
| Voice.NoPausePunctuationLeft | voice_handler.py:155-159 | After the five replacements, no `!`, `?`, `.` or `,` is left. |
| Voice.EllipsisIsOneLongPause | voice_handler.py:155-159 | The first ellipsis of a text becomes one 500 ms break, not three 200 ms ones, even after a full stop. It is first when the text before it has no ellipsis and does not end in a dot. The text on each side is paused separately, so applying the lemma again to the rest covers every ellipsis. |
| Voice.ExclamationIsPause | voice_handler.py:155 | Every `!` becomes one 300 ms break; the text on either side is paused on its own. |
| Voice.QuestionIsPause | voice_handler.py:156 | Every `?` becomes one 300 ms break; the text on either side is paused on its own. |
| Voice.LoneFullStopIsPause | voice_handler.py:157-158 | A full stop with no dot just before or after it becomes one 200 ms break; the text on either side is paused on its own. |
| Voice.CommaIsShortPause | voice_handler.py:159 | Every `,` becomes one 150 ms break; the text on either side is paused on its own. |
| Voice.TagSurvivesStep | voice_handler.py:155-159 | A break tag put in by one step passes through every later step unchanged, and each side of it is replaced separately. |
| Voice.LoneDotSurvivesEllipsis | voice_handler.py:157 | The ellipsis step leaves a dot with no dot on either side in place and works on each side of it separately. |
| Voice.ReplaceKeepsDotFreeEnds | voice_handler.py:155-156 | The `!` and `?` steps put no dot at either end of a text that had none there. |
| Voice.ReplaceKeepsEllipsisFirst | voice_handler.py:155-157 | The `!` and `?` steps put in no dot, so the first ellipsis of the text stays first. |
| Voice.SsmlShape | voice_handler.py:150-168 | After `strip()` the document is `<speak>`, the paused text and `</speak>`: it starts with `<speak>` and ends with `</speak>`. |
| Voice.SsmlHasNoPausePunctuation | voice_handler.py:150-168 | The whole SSML document holds no `!`, `?`, `.` or `,`. |
| Voice.SpeechRequest | voice_handler.py:86-119 | The synthesis request built from the text, dialect and persona. Its properties are stated by `SpeechRequestFacts`, and `TextToSpeech` sends exactly it. |
| Voice.SpeechRequestFacts | voice_handler.py:86-125 | The synthesis request carries that SSML, the resolved voice name and the bounded rate and pitch. |
| Voice.VoiceHandler.TextToSpeech | voice_handler.py:79-135 | Disabled speech gives `None`. Otherwise exactly that request is sent. Audio comes back as a `data:audio/mp3;base64,` URL; a failure gives `None`. |
| PyStr.Replace | voice_handler.py:155-159 | `str.replace`: leftmost, non-overlapping matches. Its properties are stated by the `Replace…` lemmas below. |
| PyStr.ReplaceRemovesChar | voice_handler.py:155-159 | Replacing one character by text that does not hold it removes every occurrence. |
| PyStr.ReplaceAddsNoChar | voice_handler.py:155-159 | A replacement introduces no character found in neither the text nor the replacement. |
| PyStr.ReplaceAbsent | voice_handler.py:140-143 | A pattern that does not occur leaves the text unchanged. |
| PyStr.ReplaceCharConcat | voice_handler.py:155-156 | Replacing one character commutes with concatenation. |
| PyStr.ReplaceFirstMatch | voice_handler.py:157 | The leftmost match is the one replaced: when no match starts inside `a`, `replace` on `a + pat + b` keeps `a`, puts in the replacement, then goes on in `b`. |
| PyStr.ReplaceOneChar | voice_handler.py:155-159 | A one-character text becomes the replacement exactly when it is the pattern character. |
| PyStr.ReplaceAtBarrier | voice_handler.py:155-159 | A character that is not in the pattern is covered by no match: `replace` keeps it and works on each side of it separately. |
| PyStr.ReplaceAroundBarrier | voice_handler.py:155-159 | The same for a non-empty text none of whose characters is in the pattern. |
| PyStr.Split | voice_handler.py:146 | `split()` yields non-empty words without whitespace. Joined with nothing between them, they are exactly the input with its whitespace removed. |
| PyStr.SplitJoin | voice_handler.py:146 | Words joined by single spaces split back into the same words. |
| PyStr.Join | voice_handler.py:146 | `sep.join(words)`. Its properties are stated by `JoinWordsSingleSpaced`, `SplitJoin` and `Split`. |
| PyStr.JoinWordsSingleSpaced | voice_handler.py:146 | Words joined by single spaces give single-spaced text. |
| PyStr.CollapseWhitespace | voice_handler.py:146 | `' '.join(s.split())` is single-spaced: trimmed, with single plain spaces. It keeps the words of the input, in order. |
| PyStr.CollapseKeepsSingleSpaced | voice_handler.py:146 | Text already single-spaced comes back unchanged. |
| PyStr.CollapseIdempotent | voice_handler.py:146 | Collapsing twice is the same as collapsing once. |
| PyStr.Strip | voice_handler.py:168 | `str.strip()` over CPython's whitespace set. Its property is stated by `StripPadded`. |
| PyStr.Contains | openai_brain.py:234 | `t in s` for strings: some index starts an occurrence. It is used by `FallbackReply` and `FallbackForKnownPersonas`. |
| PyStr.StripPadded | voice_handler.py:168 | `strip()` of a text padded with whitespace gives back the text, if the text does not begin or end with whitespace. |
| Store.Database.constructor | database.py:22-62 | `init_db` on a new database file makes three empty tables, and the store invariant holds. |
| Store.Database.CreateUser | database.py:69-90 | The new user gets a fresh id of at least 1 and a stats row (0 messages, 1 session, the chosen favourites). The user count grows by one and nothing else changes. |
| Store.Database.UpdateUserPreferences | database.py:92-118 | Only the given, non-empty fields of that one user change. With no such field nothing changes. An unknown user changes nothing. |
| Store.Database.SaveMessage | database.py:120-145 | One row is appended with the next id. The writer's message count grows by one and their `last_active` is set. Other users and stats rows are untouched. |
| Store.Database.GetConversationHistory | database.py:147-173 | The result is the user's latest `limit` rows in chronological order, as (role, content, timestamp). |
| Store.Database.ClearConversationHistory | database.py:175-186 | Exactly the user's rows are deleted. The others keep their order, and the total drops by the number deleted. |
| Store.Database.GetUserStats | database.py:188-217 | There is a result exactly when both the user and the stats row exist, and it joins their fields. |
| Store.Database.GetAllUsersCount | database.py:219-228 | The result is the number of users. |
| Store.Database.GetTotalConversations | database.py:230-239 | The result is the number of stored messages. |
| Store.Select | database.py:154-155 | `WHERE user_id = ?` never yields more rows than the table holds. |
| Store.SelectMembers | database.py:154-155 | A row is selected exactly when it is stored and its owner matches. |
| Store.SelectConcat | database.py:154-155 | Selection distributes over appending rows. |
| Store.SelectPartition | database.py:180-183 | The rows of one user and the rows of everyone else together make up the whole table. |
| Store.SelectIncreasing | database.py:156 | A selection keeps ids in increasing order. |
| Store.ClearSelects | database.py:180-183 | After a clear the user has no rows, and every other user's rows are as before. |
| Store.LastN | database.py:156-157 | `ORDER BY id DESC LIMIT n`, read back in reverse, gives the last `n` items, or all of them when `n` is negative. |
| Store.SuffixIsLatest | database.py:156-157 | The kept rows are in id order, and every dropped row is older than every kept one. |
| Store.RecentRows | database.py:152-158 | The query of `get_conversation_history`: the user's rows, the last `limit` of them, in id order. Its properties are stated by `RecentRowsFacts` and `LatestMessageLast`, and `GetConversationHistory` returns it. |
| Store.RecentRowsFacts | database.py:147-171 | The history holds only the user's rows, at most `limit` of them, in order. They are the newest: any of the user's rows left out is older. |
| Store.LatestMessageLast | database.py:120-171 | A message just saved is last in its user's history, and no other user's history changes. |
| Store.Entries | database.py:164-171 | Each row becomes one entry with its role, content and timestamp, in the same order. |

## Left out

- Environment and start-up: neither the API-key check (the `ValueError` raised when it is missing) nor the client objects are modelled. The model name is a constructor parameter. Whether a speech client could be made is the `enabled` constructor parameter.
- Remote calls: the OpenAI completion, Google Cloud text-to-speech and `base64.b64encode` are opaque function parameters. The model cannot see what they return or what exceptions they raise.
- Sampling settings: `temperature`, `presence_penalty` and `frequency_penalty` are not part of the request model. With no model of the service, they have no effect to state.
- Brain.NanbanBrain.Chat: the reply content is a string. The model does not cover a missing (`null`) content from the API.
- Logging and `print`: nothing is modelled.
- Voice.InsertPauses: runs of dots are pinned down only by `EllipsisIsOneLongPause` (an ellipsis with no dot just before it) and `LoneFullStopIsPause` (a dot with no dot on either side). No lemma states the breaks for two dots in a row, or for the dots left over after an ellipsis.
- Store.Database.constructor: the model always starts from a new, empty database. `CREATE TABLE IF NOT EXISTS` on an existing `nanban.db` would keep its rows and AUTOINCREMENT counters; that case is not modelled.
- The database file and connections, `sqlite3.Row` and the SQL text: the tables are in-memory maps and a sequence.
- Foreign keys are not enforced, as in SQLite by default: a message for an unknown user is stored.
- Store.Database.GetConversationHistory: the descending query followed by `reversed` is a backward scan that prepends entries. The result is proved equal to `Entries(RecentRows(conversations, userId, limit))`; the SQL is not modelled.
- Timestamps: `CURRENT_TIMESTAMP` is the `now` argument. `created_at` and `last_active` are equal on creation.
- Default arguments: Dafny has none, so callers pass them. For example, `limit=20` or `slang='COMMON'`.
- Integer widths: SQLite ids and counters are unbounded integers here, with no 64-bit limit.
- Real numbers: speaking rate and pitch are exact `real`s, not floating point.
- Emoji: the emoji list of `_clean_text_for_tts` is copied code point by code point. Its mis-encoded entries are kept exactly. The model does not claim the list removes every emoji.
- Voice.CreateSsml: the unused `voice_cfg` and `persona_mod` parameters of `_create_ssml` are dropped.
- The openers dictionary: the source rebuilds it on every call with the name filled in. Here it is one module-level table of (lead, fallback, tail) triples, and `Fill` inserts the name.
- Brain and Voice tables: the rule, voice and modifier tables are fixed constants. The source never changes them after start-up.
- Retry logic, conversation memory and mood tracking do not occur in `openai_brain.py`, so nothing models them.
- The web front end (`app.py`) and its routes are not part of this model.
