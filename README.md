# The Loremaster: a verified model of its deterministic core

The Loremaster is a Discord bot that answers questions about a Dungeons and
Dragons campaign from notes kept in Notion. A loader fetches the Notion
pages, cleans and splits them, tags the session notes and writes chunks and
whole documents into a PostgreSQL vector store. The bot then reads that
store, either by similarity search or, for the "last session" story, by two
metadata queries. A CDK stack turns the `.env` file into SSM parameters.

This project models the deterministic logic of those pieces in Dafny and
proves what it promises:

- `load_util.dfy` (module `LoadUtil`): `replace_non_ascii` and
  `split_documents`. The text splitter is a parameter.
- `load_pgvector.dfy` (module `LoadPgvector`): the tagging of fetched
  documents (`embedding_type`, `session_number`, `is_latest`) done in place
  on document objects, and the two writes to the vector store.
- `rag.dfy` (module `LastSession`): the focal and background queries of
  `prompt_rag_flow_last_session` as filter, sort and limit over a sequence
  of rows, the rendering of the background, and the prompt.
- `general.dfy` (module `General`): the `/lore` question extraction and
  truncation, and the line-packing loop of `chunk_message_content`.
- `config.dfy` (module `Config`): the `.env` loop of `ConfigStack.__init__`,
  `check_param_exists` and the SSM naming, against a parameter store whose
  values can change.
- `documents.dfy`, `py_str.dfy` and `wrappers.dfy` support the modules
  above. They hold the document objects, the Python `str` operations the code
  uses (`strip`, `split`, `join`, `find`, `rfind`, `replace`, `startswith`,
  `<`, `int`, `str`), and `Option`/`Result`.

Each stateful operation is a method with a loop or in-place update. It is
proved equal to a specification function, and the properties are lemmas
about those functions. Exceptions the Python code raises are `Failure`
values, or `None` where only one exception is possible.

Two consequences of the order of operations in the code:

- Chunks are made at load_pgvector.py line 40, before the session tagging
  of lines 43-53, and the splitter copies metadata. So chunk records never
  carry `session_number` or `is_latest`.
- The focal query orders by `session_number` and does not read `is_latest`
  (rag.py lines 142-152). It takes the row with the largest
  `session_number`, flagged or not.

## Model

| member | source | states |
|---|---|---|
| LoadUtil.ReplaceNonAsciiText | src/notion-extractor/utils/load_util.py:56-62 | the replacement chain and the ASCII filter as written; no contract of its own, its meaning is stated by the lemmas below against the character-by-character `Cleaned` |
| LoadUtil.ReplaceNonAsciiTextIsCleaned | src/notion-extractor/utils/load_util.py:56-62 | the replacement chain and the ASCII filter act character by character. U+E05C and U+FB01 become "fi", NUL becomes a space, other non-ASCII is dropped, ASCII is kept, in input order |
| LoadUtil.ReplaceNonAsciiTextIsAscii | src/notion-extractor/utils/load_util.py:59-62 | the cleaned text holds only code points below 128 and no NUL |
| LoadUtil.CleanedKeepsPlainAscii | src/notion-extractor/utils/load_util.py:56-62 | text that is already ASCII without NUL is returned unchanged |
| LoadUtil.ReplaceNonAsciiTextIdempotent | src/notion-extractor/utils/load_util.py:56-62 | cleaning twice is cleaning once |
| LoadUtil.ReplaceNonAsciiTextAt | src/notion-extractor/utils/load_util.py:56-62 | a character's replacement does not depend on its neighbours, so the ligatures become "fi" wherever they stand |
| LoadUtil.ReplaceNonAsciiTextAppend | src/notion-extractor/utils/load_util.py:56-62 | cleaning a concatenation is the concatenation of the cleaned parts |
| LoadUtil.ReplaceNonAscii | src/notion-extractor/utils/load_util.py:52-63 | a new document with the cleaned text and the input's metadata |
| LoadUtil.ReplaceNonAsciiAll | src/notion-extractor/utils/load_util.py:14 | one new cleaned document per input, in order |
| LoadUtil.SplitWithSplitter | src/notion-extractor/utils/load_util.py:38 | new, distinct chunk objects: the pieces of each document in turn, each with that document's metadata |
| LoadUtil.TagChunks | src/notion-extractor/utils/load_util.py:41-42 | every chunk's metadata gains `embedding_type = "chunk"` and nothing else changes |
| LoadUtil.SplitDocuments | src/notion-extractor/utils/load_util.py:13-49 | the returned chunks are new objects whose values are those of the clean, split, tag pipeline; the inputs are not changed |
| LoadUtil.SplitDocumentsPerDocument | src/notion-extractor/utils/load_util.py:14-42 | the pipeline output is, document by document in order, the pieces of its cleaned text tagged as chunks |
| LoadUtil.SplitDocumentsMetadata | src/notion-extractor/utils/load_util.py:38-42 | every chunk has `embedding_type = "chunk"`, and its other metadata is exactly that of an input document |
| LoadUtil.ChunksCarryNoSessionKeys | src/notion-extractor/utils/load_pgvector.py:40-53 | chunks are made before the tagging, so they carry no `session_number` or `is_latest` |
| Documents.SetMetadata | src/notion-extractor/utils/load_pgvector.py:53 | assigning one document's metadata changes that document only |
| PyStr.Strip | cdk/stacks/config.py:28 | `strip` removes leading and trailing whitespace: the result is a slice of the text with only whitespace cut off before and after it, it starts and ends with non-space, and it is the whole text or empty in the extreme cases |
| PyStr.Split | cdk/stacks/config.py:28 | `split` on one character gives one more part than there are separators, no part holds the separator, and joining the parts rebuilds the text |
| PyStr.Find | src/discord-bot/cogs/general.py:118 | `find` returns the first occurrence, or -1 exactly when there is none |
| PyStr.RFind | src/discord-bot/cogs/general.py:124 | `rfind` returns the last occurrence, or -1 exactly when there is none |
| PyStr.Replace | cdk/stacks/config.py:31 | `replace`: a left-to-right scan replacing each non-overlapping occurrence; no contract of its own, its behaviour is stated by the three lemmas below |
| PyStr.ReplaceAbsent | cdk/stacks/config.py:31 | `replace` leaves text without the pattern unchanged |
| PyStr.ReplaceAtStart | cdk/stacks/config.py:31 | an occurrence at the start is replaced and the scan resumes after it |
| PyStr.ReplaceSkipsHead | cdk/stacks/config.py:31 | text none of whose characters can start the pattern is copied through, and the scan continues after it |
| PyStr.StrLessIrreflexive | src/notion-extractor/utils/load_pgvector.py:52 | no string is less than itself |
| PyStr.StrLessTransitive | src/notion-extractor/utils/load_pgvector.py:52 | string `<` is transitive |
| PyStr.StrLessTotal | src/notion-extractor/utils/load_pgvector.py:52 | two strings are equal or one is less than the other |
| PyStr.ListLessIrreflexive | src/notion-extractor/utils/load_pgvector.py:52 | no list of strings is less than itself |
| PyStr.ListLessTransitive | src/notion-extractor/utils/load_pgvector.py:52 | `<` on lists of strings is transitive |
| PyStr.ListLessTotal | src/notion-extractor/utils/load_pgvector.py:52 | two lists of strings are equal or one is less than the other |
| PyStr.NatToStringRoundTrip | src/discord-bot/cogs/llm_flow/rag.py:175 | `int(str(n)) == n`: the rendered session number reads back as itself |
| LoadPgvector.IsSessionNotes | src/notion-extractor/utils/load_pgvector.py:47 | `"Session Notes" in tags`: list membership or substring search, `KeyError` without tags, `TypeError` on another type; no contract of its own, used by `SessionNotesIndices` |
| LoadPgvector.SessionNumber | src/notion-extractor/utils/load_pgvector.py:49 | `int(re.findall(r"\d+", name)[0])`, with `KeyError`, `TypeError` and `IndexError`; no contract of its own, its reading of the name is `FirstDigitRun`'s |
| LoadPgvector.Greater | src/notion-extractor/utils/load_pgvector.py:52 | `>` on two metadata values; no contract of its own, stated by `GreaterIsKeyLess` |
| LoadPgvector.FirstDigitRun | src/notion-extractor/utils/load_pgvector.py:49 | `re.findall(r"\d+", name)[0]` is the leftmost maximal digit run, and there is none exactly when the name has no digit |
| LoadPgvector.GreaterIsKeyLess | src/notion-extractor/utils/load_pgvector.py:52 | `>` on created times succeeds exactly on two strings, two numbers (an `int` or a `bool`, with `True` as 1) or two lists of strings, and then agrees with the strict order `KeyLess` |
| LoadPgvector.KeyLessTransitive | src/notion-extractor/utils/load_pgvector.py:52 | the order on created times is transitive |
| LoadPgvector.KeyLessTotal | src/notion-extractor/utils/load_pgvector.py:52 | comparable created times compare equal (`True == 1` included) or are ordered |
| LoadPgvector.KeyLessIrreflexive | src/notion-extractor/utils/load_pgvector.py:52 | no created time is less than itself |
| LoadPgvector.KeyLessAfterNotGreater | src/notion-extractor/utils/load_pgvector.py:52 | a key not greater than `b` is less than any key `b` is less than, which lets `max` keep an earlier equal key |
| LoadPgvector.SessionNotesIndices | src/notion-extractor/utils/load_pgvector.py:47 | the selection succeeds iff every document's tags can be read; it lists, in fetch order and without repeats, exactly the documents tagged "Session Notes" |
| LoadPgvector.SelectionStopsAtFailure | src/notion-extractor/utils/load_pgvector.py:47 | once reading tags raises, later documents do not change the outcome |
| LoadPgvector.WithNumberAgain | src/notion-extractor/utils/load_pgvector.py:48-49 | setting `session_number` does not change the name it is read from, and doing it twice is doing it once |
| LoadPgvector.SetSessionNumbers | src/notion-extractor/utils/load_pgvector.py:48-49 | the numbering succeeds iff every listed name has a number; listed documents get their number and all others are unchanged |
| LoadPgvector.NumberingError | src/notion-extractor/utils/load_pgvector.py:48-49 | there is no error iff every listed name holds a number; an error is that of the first listed name without one |
| LoadPgvector.MaxFromIsFirstMax | src/notion-extractor/utils/load_pgvector.py:52 | the scan inside `max` keeps the first greatest key seen so far |
| LoadPgvector.LatestPositionIsFirstMax | src/notion-extractor/utils/load_pgvector.py:52 | `max` fails with an empty-sequence error exactly when no document is selected; otherwise it returns the first document with the greatest created time |
| LoadPgvector.FirstMaxUnique | src/notion-extractor/utils/load_pgvector.py:52 | there is only one first maximum |
| LoadPgvector.LatestSessionNotesUnique | src/notion-extractor/utils/load_pgvector.py:52-53 | at most one document is the latest session-notes document |
| LoadPgvector.TaggedKeys | src/notion-extractor/utils/load_pgvector.py:43-53 | what the tagging adds to one document: the marker, the number for session notes, the flag for the latest; every other key is kept unchanged |
| LoadPgvector.WritesDoNotAffectReads | src/notion-extractor/utils/load_pgvector.py:43-53 | the three keys written are not the keys read (tags, name, created time) |
| LoadPgvector.TagDocuments | src/notion-extractor/utils/load_pgvector.py:43-53 | the whole tagging block on values: a result as long as its input, or the first exception; what it adds is stated by the lemmas that follow |
| LoadPgvector.TagDocumentsNeeds | src/notion-extractor/utils/load_pgvector.py:47-49 | tagging succeeds only if every document's tags can be read and every session-notes name holds a number |
| LoadPgvector.TagDocumentsResult | src/notion-extractor/utils/load_pgvector.py:43-53 | after tagging, each document is its tagged self, and exactly one position, the latest session-notes document, is flagged |
| LoadPgvector.EveryDocumentMarked | src/notion-extractor/utils/load_pgvector.py:43-44 | every fetched document has `embedding_type = "document"` |
| LoadPgvector.SessionNumberIffSessionNotes | src/notion-extractor/utils/load_pgvector.py:47-49 | a document gets `session_number` iff it is tagged "Session Notes"; the value is the first digit run of its name read as an integer |
| LoadPgvector.ExactlyOneLatest | src/notion-extractor/utils/load_pgvector.py:52-53 | exactly one document carries `is_latest = True`: the session-notes document with the greatest created time, the earliest on ties |
| LoadPgvector.OnlyThreeKeysAdded | src/notion-extractor/utils/load_pgvector.py:43-53 | no key is removed, and no key other than the three is added or changed; other documents get only `embedding_type` |
| LoadPgvector.NoSessionNotesFails | src/notion-extractor/utils/load_pgvector.py:52 | without a session-notes document the load fails with the empty-`max` error |
| LoadPgvector.NameWithoutDigitFails | src/notion-extractor/utils/load_pgvector.py:49 | a session-notes name without a digit makes the load fail |
| LoadPgvector.MarkDocuments | src/notion-extractor/utils/load_pgvector.py:43-44 | the loop marks every document in place, and its metadata is then what `MarkAll` specifies |
| LoadPgvector.SelectSessionNotes | src/notion-extractor/utils/load_pgvector.py:47 | the comprehension returns what `SessionNotesIndices` specifies |
| LoadPgvector.NumberSessionNotes | src/notion-extractor/utils/load_pgvector.py:48-49 | the loop numbers the documents in place as `SetSessionNumbers` specifies; on failure the documents before the failing one are numbered |
| LoadPgvector.NumberOne | src/notion-extractor/utils/load_pgvector.py:49 | the number is read from the document's name as it stands; when there is one the document's metadata gains it as `session_number`, otherwise nothing changes |
| LoadPgvector.FindLatest | src/notion-extractor/utils/load_pgvector.py:52 | the loop inside `max` returns the position `LatestPosition` specifies |
| LoadPgvector.TagFetchedDocuments | src/notion-extractor/utils/load_pgvector.py:43-53 | tagging in place succeeds iff `TagDocuments` does; the documents' metadata is then its result, and on failure the error is its error |
| LoadPgvector.CollectionAfterLoad | src/notion-extractor/utils/load_pgvector.py:60-68 | after a load, the target collection holds the chunks and then the documents, after the old records unless reset; other collections are untouched |
| LoadPgvector.VectorStore.Open | src/notion-extractor/utils/load_pgvector.py:60-65 | with `reset` the collection's records are deleted, and otherwise the store is unchanged |
| LoadPgvector.VectorStore.AddDocuments | src/notion-extractor/utils/load_pgvector.py:67-68 | one record per document is appended, in order |
| LoadPgvector.SplitThenTag | src/notion-extractor/utils/load_pgvector.py:40-53 | chunks come from the documents as fetched, and the later in-place tagging does not reach them |
| LoadPgvector.Write | src/notion-extractor/utils/load_pgvector.py:60-68 | the store gains the chunk records and then the document records, after an optional reset |
| LoadPgvector.LoadPgvector | src/notion-extractor/utils/load_pgvector.py:40-68 | the load succeeds iff tagging does. On failure nothing is written. On success the documents carry the tagged metadata and the store gains the chunks and then the documents |
| LastSession.Selected | src/discord-bot/cogs/llm_flow/rag.py:147-167 | the WHERE clause selects exactly the matching rows, each once, in table order |
| LastSession.BeforeTotal | src/discord-bot/cogs/llm_flow/rag.py:150 | any two keys are ordered one way or the other under `DESC NULLS FIRST` |
| LastSession.BeforeTransitive | src/discord-bot/cogs/llm_flow/rag.py:150 | the `DESC NULLS FIRST` order is transitive |
| LastSession.InsertSorted | src/discord-bot/cogs/llm_flow/rag.py:150 | inserting into a sorted list keeps it sorted |
| LastSession.SortDesc | src/discord-bot/cogs/llm_flow/rag.py:168 | ORDER BY returns a permutation of the selection, sorted by `DESC NULLS FIRST` |
| LastSession.SortedSelection | src/discord-bot/cogs/llm_flow/rag.py:150 | the sorted selection holds every matching row exactly once |
| LastSession.LimitOfSorted | src/discord-bot/cogs/llm_flow/rag.py:150-151 | cutting that list at the limit leaves out no matching row that sorts before a kept one |
| LastSession.Query | src/discord-bot/cogs/llm_flow/rag.py:142-170 | one query as filter, sort and limit, failing on a negative limit; no contract of its own, stated by `QueryIsSqlResult` |
| LastSession.QueryIsSqlResult | src/discord-bot/cogs/llm_flow/rag.py:142-170 | each query returns an answer SQL allows: distinct matching rows in key order, as many as the limit allows, and the top ones |
| LastSession.Background | src/discord-bot/cogs/llm_flow/rag.py:158-170 | the background query fails exactly on a negative limit, and its positions are rows of the table |
| LastSession.Focal | src/discord-bot/cogs/llm_flow/rag.py:142-155 | the focal record is a row of the table; its choice is stated by `FocalIsLatestNumber` |
| LastSession.FocalIsLatestNumber | src/discord-bot/cogs/llm_flow/rag.py:142-155 | the focal record is a session summary that no other outranks by session number; the flow fails exactly when none matches |
| LastSession.NullSessionNumberOutranks | src/discord-bot/cogs/llm_flow/rag.py:150 | a matching row without `session_number` comes first under DESC, so the focal record has none |
| LastSession.BackgroundSelection | src/discord-bot/cogs/llm_flow/rag.py:158-170 | the background is at most `n` unflagged summaries in key order, omitting none that outranks a kept one, and fails iff `n < 0` |
| LastSession.FlaggedFocalNotInBackground | src/discord-bot/cogs/llm_flow/rag.py:151-167 | a focal record that carries `is_latest` cannot appear in the background |
| LastSession.UnflaggedFocal | src/discord-bot/cogs/llm_flow/rag.py:142-152 | of two unflagged summaries, the higher-numbered one is the focal record |
| LastSession.UnflaggedFocalRepeated | src/discord-bot/cogs/llm_flow/rag.py:158-170 | without the flag, that focal record is also the first background record: the exclusion is by flag, not by identity |
| LastSession.TopByPosition | src/discord-bot/cogs/llm_flow/rag.py:168-169 | over rows numbered by position, a sorted top-n answer is the highest positions counting down |
| LastSession.SevenSessionsFocal | src/discord-bot/cogs/llm_flow/rag.py:142-155 | with sessions 1 to 7 the focal record is session 7 |
| LastSession.SevenSessionsBackground | src/discord-bot/cogs/llm_flow/rag.py:158-170 | with `is_latest` on session 7 and the default `n` of 5, the background is sessions 6, 5, 4, 3, 2 in that order |
| LastSession.RenderRow | src/discord-bot/cogs/llm_flow/rag.py:175 | the header `-- SESSION <n> -- ` and the row's text; a JSON null renders as `None` and a missing key raises; no contract of its own, used by `RenderAll` |
| LastSession.RenderAll | src/discord-bot/cogs/llm_flow/rag.py:174-177 | each background row renders, in query order, as its session-number header and then its text; the rendering fails iff a row has no `session_number` key (a JSON null renders as `None`) |
| LastSession.BackgroundBlock | src/discord-bot/cogs/llm_flow/rag.py:174-177 | `"\n".join` of the rendered rows; no contract of its own, stated by `BackgroundBlockEmpty` and `LastSessionPromptResult` |
| LastSession.BackgroundBlockEmpty | src/discord-bot/cogs/llm_flow/rag.py:174-177 | the joined block is empty exactly when there are no background rows |
| LastSession.FillHoldsBothTexts | src/discord-bot/cogs/llm_flow/rag.py:182-185 | the template's fixed text surrounds the background block and then the focal text, both verbatim and in that order |
| LastSession.LastSessionPromptWith | src/discord-bot/cogs/llm_flow/rag.py:111-185 | the flow for a given template; no contract of its own, stated by `LastSessionPromptResult` |
| LastSession.LastSessionPrompt | src/discord-bot/cogs/llm_flow/rag.py:111-185 | the flow with `LAST_SESSION_PROMPT_TEMPLATE`; no contract of its own |
| LastSession.LastSessionPromptResult | src/discord-bot/cogs/llm_flow/rag.py:111-185 | the flow succeeds iff a focal record exists, `n >= 0` and every background row has a `session_number` key; the prompt then holds the background block and the focal text |
| General.ExtractQuestion | src/discord-bot/cogs/general.py:118 | the question exists iff the message contains "lore"; it is the text after the first "lore" |
| General.LoreBody | src/discord-bot/cogs/general.py:122-125 | a response of at most 1994 characters is kept whole. A longer one is cut to a prefix of its first 1994 characters that ends in "." or is empty, with no "." after the cut |
| General.LoreReply | src/discord-bot/cogs/general.py:120-126 | the reply is a quote block of at most 2000 characters; a response that fits is sent whole |
| General.LoreBodyLongest | src/discord-bot/cogs/general.py:124-125 | the cut is at the last "." within the 1994 characters: no longer prefix that fits ends in "." |
| General.Step | src/discord-bot/cogs/general.py:170-176 | one loop iteration; every line raises the line counter by one |
| General.Pack | src/discord-bot/cogs/general.py:164-176 | the loop state after the given lines; no contract of its own, stated by `PackKeepsLines`, `PackBounded`, `LineCountNeverReset` and `BodiesGrow` |
| General.ChunkMessages | src/discord-bot/cogs/general.py:162-181 | the messages returned; no contract of its own, stated by `AtLeastOneMessage`, `BodiesRebuildText` and `LongMessageIsOneLine` |
| General.ChunkMessageContent | src/discord-bot/cogs/general.py:162-181 | returns the messages `ChunkMessages` specifies: the flushed chunks and then the last chunk when it is not empty |
| General.PackLines | src/discord-bot/cogs/general.py:164-176 | the loop, with `current_length == len(current_chunk)` as an invariant, ends in the state `Pack` specifies; the messages it appended are those of the flushed bodies |
| General.Flush | src/discord-bot/cogs/general.py:171 | appending a chunk extends the messages by that body stripped and quoted |
| General.LineCountNeverReset | src/discord-bot/cogs/general.py:169-176 | after k lines the line counter is k: flushing never resets it |
| General.AtLeastOneMessage | src/discord-bot/cogs/general.py:162-181 | there is always at least one message, and every message starts and ends with ``` |
| General.PackKeepsLines | src/discord-bot/cogs/general.py:169-176 | the flushed bodies and the current chunk together hold every line seen, each followed by a newline |
| General.BodiesRebuildText | src/discord-bot/cogs/general.py:162-179 | the unstripped bodies run together are the text plus "\n": no line is lost, reordered or split |
| General.PackBounded | src/discord-bot/cogs/general.py:170-175 | every body ends in a newline and either fits 1995 characters with its newline or is a single line |
| General.LongMessageIsOneLine | src/discord-bot/cogs/general.py:145-179 | a message over 2000 characters comes only from a body that is a single line of more than 1994 characters |
| General.LongFirstLine | src/discord-bot/cogs/general.py:170-175 | a first line over 1994 characters makes the first message the empty block "``````" |
| General.BodiesGrow | src/discord-bot/cogs/general.py:169-176 | later lines only add bodies after the ones already flushed |
| General.LateLineAlone | src/discord-bot/cogs/general.py:146-176 | once 100 lines have been read (from the 101st line on), each line flushes what came before and starts a chunk of its own |
| Config.ParseLine | cdk/stacks/config.py:28 | unpacking succeeds iff the stripped line holds exactly one "="; the key and value are the text around it |
| Config.BlankLineFails | cdk/stacks/config.py:27-28 | a blank line stops construction |
| Config.ValueWithEqualsFails | cdk/stacks/config.py:28 | a value containing "=" stops construction |
| Config.SecretLookupFaults | cdk/stacks/config.py:31-57 | when the lookup of a secret's SSM name fails other than by ParameterNotFound, the fault is raised: the line stops the loop with that error and nothing is written or recorded |
| Config.SecretParamName | cdk/stacks/config.py:31 | the SSM name of a secret; no contract of its own, stated by `ReplaceDropsEveryPrefix` and `SecretNameOfPrefixedKey` |
| Config.Process | cdk/stacks/config.py:28-46 | one pass of the loop body; no contract of its own, stated by the lemmas that follow |
| Config.Load | cdk/stacks/config.py:27-46 | the loop, stopping at the first error; no contract of its own, stated by `LoadStopsAtError` and `LoadKeeps` |
| Config.PostgresLineSkipped | cdk/stacks/config.py:29-30 | a key containing "POSTGRES" changes nothing |
| Config.SecretLine | cdk/stacks/config.py:31-41 | a raw line starting with "SECRET__" becomes a secret under its full key, referring to the derived SSM name; SSM gains the line's value under that name only if it held none, the name becomes a construct id, and the environment variables are unchanged |
| Config.PlainLine | cdk/stacks/config.py:42-46 | any other kept line becomes an environment variable under its key: a parameter with id app + "SSMParam" + key, holding the line's value; the secrets are unchanged |
| Config.IndentedSecretIsEnvVar | cdk/stacks/config.py:32-46 | the prefix test reads the raw line, so an indented "SECRET__" key becomes an environment variable |
| Config.ReplaceDropsEveryPrefix | cdk/stacks/config.py:31 | every "SECRET__" in the key is removed, not only the leading one: for any `a` and `b` without an "S", the key "SECRET__" + a + "SECRET__" + b is named app + "SSMSecret" + a + b |
| Config.SecretNameOfPrefixedKey | cdk/stacks/config.py:31 | a key "SECRET__" + name, where name holds no further "SECRET__", gives the SSM name app + "SSMSecret" + name |
| Config.LoadStopsAtError | cdk/stacks/config.py:27-28 | after an exception the remaining lines are not read |
| Config.SecretLineKeeps | cdk/stacks/config.py:32-41 | a secret line keeps the invariant and overwrites no stored value |
| Config.PlainLineKeeps | cdk/stacks/config.py:42-46 | a plain line keeps the invariant and leaves SSM as it was |
| Config.ProcessKeeps | cdk/stacks/config.py:28-46 | each line keeps the invariant and overwrites nothing in SSM |
| Config.LoadKeeps | cdk/stacks/config.py:27-46 | even when stopped by an error, no POSTGRES key is recorded, every secret refers to a parameter present in SSM, and no existing SSM value is overwritten |
| Config.EmptyValid | cdk/stacks/config.py:20-22 | the stack starts with empty dictionaries, which satisfy the invariant |
| Config.ParameterStore.PutSecureString | cdk/stacks/config.py:59-65 | `put_parameter` stores the value under the name |
| Config.ConfigStack.constructor | cdk/stacks/config.py:20-22 | the stack starts with no environment variables, secrets or constructs |
| Config.ConfigStack.ProcessLine | cdk/stacks/config.py:28-46 | one pass of the loop body changes the stack and SSM as `Process` specifies |
| Config.ConfigStack.LoadEnvFile | cdk/stacks/config.py:24-46 | the loop over the file leaves the stack and SSM as `Load` specifies, including the writes made before an error |

## Left out

- The text splitter (`RecursiveCharacterTextSplitter`) is a parameter `splitText`; its chunk sizes, overlap and separators are not modelled.
- Metadata dictionaries are values. The model does not capture a cleaned document sharing its dict with the original, nor chunk metadata aliasing a document's dict. Langchain's splitter copies metadata, and the model follows that copy.
- Notion fetching, the embedding model, the vector contents, similarity search, and the LLM calls (`ChatOpenAI`, the retrieval chains, `llm.invoke`) are outside the model: documents and rows are inputs, and the prompt is the output.
- The PostgreSQL connection, cursor and SQL text are abstracted. The collection name is compared as a value, so SQL quoting of the interpolated name is not modelled.
- The `::INT` cast in ORDER BY, which fails on a `session_number` that is not an integer, is not modelled: a row's `session_number` is missing, a JSON null or an integer.
- The `LIKE 'Session Notes%'` test on a JSON name that is not a string is not modelled: names are optional strings.
- LastSession.SortDesc: ties between equal keys keep table order. SQL leaves that order open, and `IsSqlResult` states only what SQL guarantees.
- Digits are ASCII only. Python's `\d` and `int()` also accept other Unicode decimal digits.
- Comparison of created times is modelled for strings, integers, booleans and lists of strings, the value types of the metadata model; floats, dates and other Python types are not.
- Discord I/O (sending replies, channel gating, async), `remove_spoilers`, `grab_id`, `help` and `ping` are not modelled.
- CDK and SSM are abstract. Parameter-name validation, secure-string encryption and deployment are not modelled. A repeated construct id fails, as the CDK library refuses one; SSM lookups raise faults from a fixed set of names.
- When the `.env` loop raises, the Python constructor raises too, so the partly built stack object is never returned. The model still states the SSM writes made before the error.
- The infrastructure stacks, the pgvector-install Lambda, the older chain wrappers and the CLI glue are not part of this model.
