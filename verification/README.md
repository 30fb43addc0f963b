# PGen parser converter: a Dafny model

PGen turns WebToEpub's JavaScript site parsers into Python parser classes. For each parser record, `convert_and_validate_parsers` in `app.py` does four things:
- It asks a language-model completion endpoint for a Python translation.
- It strips the markdown fences from the reply.
- It checks the result with `ast.parse`, and asks for a correction (up to three attempts in all) while the code does not parse.
- It writes the code it accepts to `generated_parsers/en/<bucket>/<snake_name>.py`.

This project models that loop and the pure helpers around it, and proves properties about them.

| module | file | models |
|---|---|---|
| `Wrappers` | wrappers.dfy | `Option` |
| `Text` | text.dfy | ASCII character classes, `str.lower()`, `str.strip()` |
| `Fences` | fences.dfy | the fence cleanup `re.sub(r'```python\n\|```', '', s).strip()` |
| `Naming` | naming.dfy | `to_snake_case` and the output file and bucket |
| `Completion` | completion.dfy | `call_gemini_api`: three POST attempts, back-off, text extraction |
| `Records` | records.dfy | the parser record and the two prompt shapes |
| `Repair` | repair.dfy | the generate–validate–repair loop for one record |
| `Batch` | batch.dfy | the pass over all records, and the files it leaves in the output tree |

## How things are abstracted
- **Completion client.** Inside `Repair` and `Batch` it is a scripted sequence of responses (`Option<string>`): the k-th element answers the k-th call. `None` is the client's `None` (all three POSTs failed).
- **POST attempts.** Inside `Completion` each attempt is a scripted transport outcome: `RequestFailed`, or a reply tree. The delays are recorded instead of slept.
- **`ast.parse`.** It is an abstract function `validate: string -> Validation` (`Valid`, or `Invalid(diagnostic)`).
- **Fence cleanup.** `Repair` takes it as a parameter (`Checks.clean`). `Repair.ProgramChecks` fixes it to `Fences.CleanFences`, the program's own cleanup. `Repair.SavedCodeIsClean` states what that choice guarantees about saved code.
- **Reading the JavaScript source.** It is `Option<string>` per record, or a map from file name to contents in `Batch`. A missing file is the `FileNotFoundError` path, which skips the record.
- **Prompts.** They keep only the values the f-strings interpolate: class name, base URLs, the four selectors as printed, and the source for the first prompt; the previous error and the previous cleaned code for a correction.
- **Strings.** They are ASCII: `lower()`, `isalpha()` and `isspace()` are modelled on ASCII characters. Python's `isspace` includes 0x1C–0x1F, and so does `Text.IsSpace`.

### An empty reply ends the record
A `None` or empty reply ends the record's loop after that call (`if not python_code: break`, app.py:165-167): no further attempt is made, however many remain, and the record fails. `Repair.ConvertCalls` states that the number of calls is `Repair.CallsNeeded`, which stops at the first such reply. `Repair.EmptyFirstResponse` states the one-call failed run that follows from an empty first reply.

## Model

| member | source | states |
|---|---|---|
| Text.Strip | app.py:170 | `.strip()` leaves no whitespace at either end and never lengthens the text |
| Text.StripIsInfix | app.py:170 | the stripped text is a contiguous slice of the input, and everything outside that slice is whitespace |
| Text.Lower | app.py:28 | `.lower()` keeps the length and lowers each character on its own: capitals become the matching small letter, everything else is kept |
| Text.StripTrimmed | app.py:170 | text with no surrounding whitespace is left unchanged by `.strip()` |
| Fences.RemoveFences | app.py:170 | the deletion never lengthens the text, and keeps a first character that is not a backtick |
| Fences.RemoveFencesPrefix | app.py:170 | fence-free text before a fence (not ending in a backtick) is kept as it is, in order, and the deletion goes on from the fence; with the two fence cases this fixes the deletion on every input |
| Fences.RemoveFencesBetween | app.py:170 | "a```b" becomes "ab": the text on both sides of a match survives |
| Fences.RemoveFencesLeavesNone | app.py:170 | after every match of "```python\n" or "```" is deleted left to right, no three consecutive backticks remain, even where a deletion joins backticks from both sides |
| Fences.RemoveFencesNoFence | app.py:170 | text with no three consecutive backticks passes through the deletion unchanged |
| Fences.CleanFences | app.py:170 | the cleaned response contains no fence of either form, has no surrounding whitespace, and is no longer than the response |
| Fences.CleanFencesIdentity | app.py:170 | text with no fence and no surrounding whitespace is a fixed point of the cleanup |
| Fences.CleanFencesIdempotent | app.py:170 | cleaning cleaned text changes nothing |
| Fences.FencedReplyYieldsCode | app.py:170 | a reply of the form "```python\n" + code + "\n```" yields exactly the code, when the code is fence-free and trimmed |
| Naming.ToSnakeCase | app.py:25-29 | the result is empty exactly when the name is, is at least as long as the name, and starts with the lower-cased first character, so no leading underscore is ever added |
| Naming.SnakeCaseInsertsUnderscores | app.py:25-29 | the two regex passes and `lower()` only insert underscores and lower-case: deleting the inserted underscores from the result gives the lower-cased name |
| Naming.SplitCapitalized | app.py:27 | the first pass maps the empty name to itself and keeps the first character, since `(.)` is always kept before the inserted underscore |
| Naming.SplitLowerUpper | app.py:28 | the second pass maps the empty string to itself and keeps the first character |
| Naming.SplitCapitalizedInserts | app.py:27 | the first regex pass only inserts underscores |
| Naming.SplitLowerUpperInserts | app.py:28 | the second regex pass only inserts underscores |
| Naming.SnakeCaseWithoutCapitals | app.py:25-29 | a name without capital letters is left unchanged |
| Naming.SnakeCaseThreeWords | app.py:25-29 | three capitalised words become the three words lower-cased and joined by '_' |
| Naming.SnakeCaseExample | app.py:25-29 | "FooBarParser" becomes "foo_bar_parser" |
| Naming.ExampleWords | app.py:25-29 | "Foo", "Bar" and "Parser" are capitalised words, and their lower-cased forms joined by '_' are "foo_bar_parser" |
| Naming.OutputFor | app.py:184-186 | the file name ends in ".py" and what precedes that is the class name with underscores inserted and lower-cased; the bucket is '_' exactly when the first character is not a letter, and otherwise is that letter lower-cased, which also starts the file name |
| Naming.OutputForExample | app.py:184-186 | "FooBarParser" is written to bucket 'f' as "foo_bar_parser.py" |
| Completion.ExtractText | app.py:83-85 | the text at candidates[0].content.parts[0].text when all of it is present, and "" as soon as any level is missing |
| Completion.ExtractTextRoundTrip | app.py:83-85 | the reply shape the endpoint sends for a text is extractable and gives back that text |
| Completion.Backoff | app.py:88 | the sleeps after failed attempts 0, 1 and 2 are 1, 2 and 4 seconds |
| Completion.CallCompletion | app.py:78-89 | between one and three attempts; every attempt before the last one failed; text is returned exactly when the last attempt got a reply, and it is that reply's extracted text; `None` exactly when all three failed; delay i is 2^i, one after each failure, so [1, 2, 4] when nothing came back |
| Records.InitialPrompt | app.py:123-146 | the first prompt carries the record's class name and base URLs, the source, and each selector's value, or "None" for a selector that was not found |
| Repair.Step | app.py:162-180 | one attempt appends its prompt; a reply without text is kept as the code and leaves the error as it was; otherwise the code becomes the cleaned reply, and the error is cleared exactly when it parses and is set to the diagnostic when it does not |
| Repair.RepairFrom | app.py:121-180 | the loop, entered at any attempt, leaves the record with between one and three prompts sent in all, and never fewer than it had on entry |
| Repair.RepairPrefix | app.py:121-180 | the attempts from any point on only append prompts: those sent before are kept, in order |
| Repair.RepairSteps | app.py:121-180 | from any attempt on, the loop goes past an attempt exactly when that reply had text whose cleaned code did not parse |
| Repair.RepairExit | app.py:121-180 | whatever attempt it is entered at, the loop is left with the code and error of the last reply: the cleaned code and no error after a parse, the cleaned code and its diagnostic after a failed parse, and the raw reply and the previous error when no text came back |
| Repair.RepairPrompts | app.py:121-160 | every prompt from the entry attempt on is the initial one for attempt 0 and otherwise the correction built from the previous reply's diagnostic and cleaned code |
| Repair.Decide | app.py:182-194 | a record is saved exactly when the error is none and the code is non-empty, and then with that code; the loop never reports a skip |
| Repair.Convert | app.py:111-194 | a record is skipped exactly when its source is missing, and then makes no call and leaves no error; otherwise it makes between one and three calls |
| Repair.ConvertCalls | app.py:121-167 | the number of calls is fixed by the responses alone: the loop continues after a call exactly when the response had text whose cleaned code did not parse, so an empty or `None` response ends it at once |
| Repair.ConvertPrompts | app.py:122-160 | the first prompt carries the record's class name, base URLs, printed selectors and the source; prompt k > 0 carries the diagnostic and the cleaned code of response k-1 |
| Repair.ConvertOutcome | app.py:170-194 | a record is saved exactly when its last response cleans to non-empty code that parses, and the saved code is that cleaned code; code that cleans to "" parses but is not saved |
| Repair.SavedCodeIsClean | app.py:170-192 | with the program's cleanup, saved code contains no fence and has no surrounding whitespace |
| Repair.ConvertLastError | app.py:173-180 | the error left after the loop is the last response's diagnostic when it failed to parse, none when it parsed, and the previous attempt's diagnostic when the last call brought no text |
| Repair.EmptyFirstResponse | app.py:163-167 | an empty or `None` first response gives a failed record with a single call (the initial prompt) and no error |
| Repair.NeverParses | app.py:121-194 | three responses that never parse give three calls, a failed record and the third diagnostic |
| Repair.ConvertRecord | app.py:119-194 | the loop as written, with in-place updates and `break`, computes the same run as `Convert` |
| Batch.ConvertAll | app.py:107-194 | one run per record; every record makes at most three calls, a record is skipped exactly when its source is missing, and the whole pass makes at most three calls per record |
| Batch.ChainConsumes | app.py:107-194 | with any per-record conversion, record i is converted against the responses left after the calls of the records before it |
| Batch.ConvertAllConsumes | app.py:107-194 | record i is converted by the single-record loop against the responses that follow the calls made by the records before it; a skipped record uses none, and the next record carries on |
| Batch.Contents | app.py:190-192 | a written file is the header line "# Auto-generated from <js_filename>" followed by the code |
| Batch.Store | app.py:101-104 | the output tree starts empty and holds a file at a path exactly when some write went to that path |
| Batch.LastWriterWins | app.py:187-192 | a write that no later write to the same path overwrites leaves its text in the file |
| Batch.Generate | app.py:101-194 | every saved record's path holds a file, and every file belongs to a record whose source was found and whose code was saved |
| Batch.WrittenFiles | app.py:182-192 | whatever runs produced them, the tree holds a file for every saved run and only for saved runs |
| Batch.GeneratedContents | app.py:182-192 | the file of a saved record that no later saved record overwrites holds the header naming its source, then its code |

## Left out
- Flask routes, Server-Sent-Event formatting, `render_template_string` and the `__main__` block (app.py:43-45, 222-252): web plumbing with no logic to model.
- The Node extractor run through `subprocess`, `npm install`, and loading `parsers_data.json` (app.py:31-39, 47-63, 94-99): the records arrive as a Dafny sequence instead.
- ZIP creation and the file.io upload (app.py:196-219): archive and network I/O.
- The log lines yielded along the way: their text is not modelled, because the outcome of a pass that runs to the end does not depend on it. The generator can still be stopped at one of those yields, which the next line covers.
- Batch.Generate: assumes that one pass runs alone and to the end. Closing the event stream closes the generator at a pending `yield`; the `GeneratorExit` this raises is not caught by the `except Exception` at app.py:236, so no later record is converted. `app.run` (app.py:252) serves requests on threads, so two `/start-conversion` streams share `generated_parsers`, and one stream's `rmtree` (app.py:103) can delete files the other has written. The model describes neither case.
- Batch.Generate: assumes every write succeeds and lands inside `generated_parsers/en/<bucket>/`. A saved class name containing '/' breaks this. A leading '/' ("/Foo" gives "/_foo.py") makes `os.path.join` at app.py:189 discard the directory and write to an absolute path. A '/' inside the name ("A/B" gives "a/b.py") names a subdirectory nobody created, so `open` at app.py:190 raises `FileNotFoundError`. A NUL character makes `open` raise `ValueError`. Neither error is caught, so the rest of the pass is aborted. The model's `Store` files every saved record under its path as if none of this happened.
- Batch.WrittenFiles: assumes, like `Batch.Generate`, that every write succeeds inside `generated_parsers/en/<bucket>/`. Its paths are the strings line 189 forms, and they are never resolved against the file system.
- Batch.GeneratedContents: assumes, like `Batch.Generate`, that every write succeeds inside `generated_parsers/en/<bucket>/`. It states what a successful write holds, not whether the write can happen for a name containing '/' or NUL.
- The HTTP request, the `requests` exception hierarchy and `time.sleep`: replaced by scripted transport outcomes and recorded delays.
- `ast.parse`: Python's grammar is a foreign dependency, so it stays an abstract `validate` function. Before Python 3.12 it raises `ValueError`, not `SyntaxError`, on code with a null byte; the loop does not catch that, and the model does not express it. From 3.12 on it is a `SyntaxError` like any other.
- The exact prompt prose and `json.dumps` escaping of the base URLs: prompts keep the interpolated values.
- Unicode semantics of `lower()`, `isalpha()` and `isspace()`: strings are treated as ASCII, and non-ASCII characters are left unchanged by `Lower`, are not letters and are not whitespace.
- Completion.ExtractText: requires `Extractable`, because with an empty `candidates` or `parts` list the source raises an uncaught `IndexError`; that crash is a precondition, not modelled behaviour.
- Completion.CallCompletion: requires the extractability of the first reply that arrives, for the same reason.
- Naming.OutputFor: requires a non-empty class name, because `class_name[0]` raises `IndexError` on an empty one. `Batch.Generate` and `Batch.GeneratedContents` require this only of records that are saved (`Batch.SavedNamed`), as line 185 indexes the name only for them.
- Repair.Convert: requires at least three scripted responses; `Batch.Padded` supplies `None` answers when a batch script runs short, which is what a client that never gets a reply returns.
- `to_snake_case`'s final `replace('_parser', '_parser')` (app.py:29): it replaces a string by itself and changes nothing.
- Reading the source raises more than `FileNotFoundError` (app.py:113-114): `PermissionError`, `IsADirectoryError`, or `UnicodeDecodeError` from `f.read()` on a file that is not UTF-8. Only `FileNotFoundError` is caught; any other error aborts the remaining records and the ZIP step. The model's source is found or missing, nothing else.
- A record without `base_urls` or `selectors` raises `KeyError` while the first prompt is built (app.py:129, 137), which also aborts the pass; records are typed, so both are always present.
- A body that is not JSON at all (app.py:81): from requests 2.27 on, `response.json()` raises `requests.exceptions.JSONDecodeError`, a `RequestException`, and the attempt counts as a `RequestFailed` that is retried. Older versions raise a plain `ValueError` outside the handler, which aborts the pass; the model follows 2.27 and later.
- JSON `null` and non-object values in the reply (app.py:82-85): a null or non-list `candidates`, or a null `content` or `parts`, raises `TypeError`, `AttributeError`, `KeyError` (an object where a list is expected, since `{}[0]` is a key lookup) or `IndexError` (an empty string where a list is expected) outside the `RequestException` handler and aborts the pass; a body that is not a JSON object does the same. `Reply` has no way to express these values: its `None` is a missing key, for which the defaults apply.
- Completion.ExtractText: a JSON `null` in `text` makes `content.get('text', '')` return `None`, so `call_gemini_api` returns `None` at once without retrying; the model's `Part.text` has no null, only a missing key, which gives "". In the repair loop both a `None` and an empty reply end the record the same way (app.py:165-167).
- The per-record `KeyError` on a record without `js_filename` or `class_name` (app.py:108-109): records are typed, so both fields are always present.
