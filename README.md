# Claim-Decision-Engine backend: retry and reply-cleanup logic in Dafny

The backend of this claims-decision demo is a FastAPI service. It indexes an
uploaded policy PDF into a FAISS store and answers claim questions with a chat
model. The service comes in two variants: `backend/main.py` uses Gemini and
`backend/local_llama.py` uses Ollama. Nearly all of the work happens in
third-party libraries. This project models the two pieces of logic that the
repository itself writes, in both variants:

- **`force_delete_directory`** (module `ForceDelete`). It is a bounded retry
  loop around `shutil.rmtree`. It makes at most 5 attempts. Only a
  `PermissionError` whose text contains `"WinError 32"` is retried, and never on
  the last attempt. The back-off starts at 0.5 s and doubles after each sleep.
  The two files hold the same function; `ForceDelete.ForceDeleteDirectory`
  models both (backend/main.py:84-107, backend/local_llama.py:75-91). The
  filesystem is an oracle. `pathExists` stands for `os.path.exists`, and
  `fs[i]` is the result of the i-th `rmtree` call, with `str(e)` as the
  message. Sleeps are recorded in a trace as whole milliseconds.
  The method is a `for` loop proved equal to a closed form, `Expected`.
  Lemmas about `Expected` give the schedule, the sleep budget and the stop
  conditions.
- **The reply cleanup in `query_document`** (module `FenceCleanup`).
  `Clean(b, raw)` models `raw.split(sep)[1].split("```")[0]`. It runs only
  when the trigger occurs in the reply. For `Gemini` (main.py) the trigger is
  "```json" and the separator "```json\n". For `Ollama` (local_llama.py) the
  trigger is "json" and the separator "json\n". Element `[1]` is taken without
  a length check, so a reply with the trigger but without the separator
  raises `IndexError`. `ParseReply` then passes the cleaned text to
  `json.loads`, modelled as an oracle `string -> Option<J>`. It also maps the
  two failures to the 500 response the endpoint raises.
- `PyStr` models the Python string operations the cleanup uses: `in` and
  `str.split(sep)`, both defined through a search for the leftmost occurrence.
  It also gives `sep.join`, the inverse that the split lemmas are stated
  against.

Two consequences of the code shape the round-trip properties. The
Gemini round trip "opening fence + s + closing fence gives back s" is proved
under two extra conditions, which suffice but are not each necessary. First,
`s` does not end in a backtick: for `s = "a`"`, the text `"a````"` is cut at
its first "```" and gives "a". Second, the closing fence is not followed by
another backtick, which could start a later "```json\n" that ends the text
first. The Ollama variant also treats any reply that contains the word "json"
as fenced. A bare one-line reply that mentions "json", such as
`{"format": "json"}`, therefore raises `IndexError` there and ends as a 500
"Error during query", not as a parse error, while the same payload inside a
fence reaches `json.loads`.

## Model

| member | source | states |
|---|---|---|
| `ForceDelete.ForceDeleteDirectory` | backend/main.py:84-107 | the loop's outcome and trace equal the closed form `Expected`; a missing path gives a normal return with no attempt and no sleep |
| `ForceDelete.StepsOfACall` | backend/local_llama.py:78-87 | a call that finds the path makes attempts 0, 1, … in order and sleeps 500·2^j ms after attempt j. It makes at most 5 attempts and stops right after an attempt. There is no trace exactly when the path is missing |
| `ForceDelete.SleepBudget` | backend/main.py:91-102 | the sleeps total at most 7500 ms, and exactly 7500 ms iff the path exists and the first four attempts all hit a WinError 32 |
| `ForceDelete.ReturnsIff` | backend/local_llama.py:76-83 | the call returns normally iff the path is missing or some attempt removes it after nothing but WinError 32 failures |
| `ForceDelete.SuccessEndsTheCall` | backend/main.py:93-97 | a successful `rmtree` ends the call at once, with no later attempt or sleep |
| `ForceDelete.OtherFailureRaisedAtOnce` | backend/local_llama.py:84-91 | a PermissionError without "WinError 32", or any other exception, is re-raised at once, with no sleep after it and no further attempt |
| `ForceDelete.LockErrorOnFinalAttemptRaised` | backend/main.py:99-105 | a WinError 32 on the fifth attempt is re-raised, not retried, after exactly four sleeps |
| `PyStr.Find` | backend/main.py:204-205 | the leftmost-occurrence search behind `in` and `split`: a found index is an occurrence with none before it, and None means the text has no occurrence at all |
| `PyStr.Split` | backend/main.py:204-205 | `s.split(sep)` for a non-empty separator, as at every call site, always yields at least one piece |
| `PyStr.SplitHasSecondPieceIff` | backend/main.py:205 | `split(sep)` has an element [1] iff `sep in s`, the condition under which the cleanup does not raise IndexError |
| `PyStr.JoinSplit` | backend/main.py:205 | `sep.join(s.split(sep)) == s`: joining the pieces with the separator gives the text back (which occurrences the pieces are cut at is fixed by `PyStr.SplitAtFirst`) |
| `PyStr.SplitPiecesAvoidSeparator` | backend/local_llama.py:154 | no piece of `s.split(sep)` contains `sep` |
| `PyStr.SplitAtFirst` | backend/local_llama.py:154 | when `sep` first occurs at i, piece [0] is the text before it and piece [1] is the first piece of the text after it |
| `FenceCleanup.Clean` | backend/main.py:204-205 | the cleanup raises IndexError iff the trigger occurs but the separator does not; without the trigger the reply is passed on unchanged |
| `FenceCleanup.CleanedTextFollowsSeparator` | backend/main.py:204-205 | a triggered, successful cleanup returns the text right after the first separator. That text contains neither "```" nor the separator. It runs up to the first "```" lying wholly before the next separator, or else up to that separator or the end of the reply |
| `FenceCleanup.GeminiUnwrapsFence` | backend/main.py:204-205 | prose without "```json\n", then "```json\n" + s + "```" + more text, is cleaned to exactly s. The lemma assumes s has no "```" and does not end in a backtick, and the closing fence is not followed by a backtick; these suffice but are not all needed |
| `FenceCleanup.OllamaUnwrapsFence` | backend/local_llama.py:153-154 | the same fenced reply is cleaned to s when the prose has no "json\n", s has neither "```" nor "json\n" and does not end in a backtick, whatever follows the closing fence |
| `FenceCleanup.SingleLineTriggeredRaises` | backend/local_llama.py:153-154 | a reply without a newline that contains the trigger raises IndexError, in either backend |
| `FenceCleanup.OllamaRejectsBareJsonMentioningJson` | backend/local_llama.py:153-154 | the bare one-line reply `{"format": "json"}` raises IndexError in the Ollama backend |
| `FenceCleanup.GeminiPassesReplyWithoutBacktick` | backend/main.py:204-209 | in the Gemini backend a reply without a backtick, that one included, reaches `json.loads` unchanged |
| `FenceCleanup.ParseReply` | backend/main.py:201-230 | every failure is a 500. It is the IndexError cause iff the trigger occurs without the separator. A parse failure reports the cleaned text that `json.loads` refused. A success is what `json.loads` returned for the cleaned text |
| `FenceCleanup.GeminiFencedParsesLikeBare` | backend/main.py:201-211 | in the Gemini backend a fenced reply gets exactly the answer or error of its bare payload, when the prose before the fence has no "```json\n", the payload has no "```" and does not end in a backtick, and the closing fence is not followed by a backtick |
| `FenceCleanup.OllamaFencedParsesLikeBare` | backend/local_llama.py:152-159 | in the Ollama backend a fenced reply gets exactly the answer or error of its bare payload, when the prose before the fence has no "json\n" and the payload has no "json", no "```" and no trailing backtick; any text may follow the closing fence |
| `FenceCleanup.OllamaBareAndFencedDiffer` | backend/local_llama.py:152-163 | a one-line payload that mentions "json" (no "```", no trailing backtick) is a 500 IndexError when bare, but when fenced gets exactly `json.loads`'s answer or parse error for it |

## Left out

- PDF loading, chunking with `RecursiveCharacterTextSplitter` (size 1000, overlap 150), embedding, FAISS `from_documents`, `save_local`, `load_local` and `as_retriever`, the prompt template and the chat-model call. These are library and hosted-model calls whose behaviour the repository does not define.
- `json.loads`: parsing JSON is library code. It is a parameter `loads` that either yields a value or stands for JSONDecodeError.
- `os.path.exists`, `shutil.rmtree` and `time.sleep`: they are oracle inputs (`pathExists`, `fs`) and trace events, not filesystem effects or real delays.
- The rest of the upload and query endpoints is not modelled. That covers the temporary-file write and its removal in `finally`, `os.makedirs`, and `del` with `gc.collect()`. It also covers the check for a missing index before loading it. Its `HTTPException(400)` (backend/main.py:164-166) is caught by the same `except Exception` and re-raised as a 500. That check rarely fires, because the directory is recreated at startup and after every delete.
- The text of error details: `ParseReply` records the cause, not the rendered `"Error during query: ..."` string, because that string depends on how the framework formats an `HTTPException`. FastAPI's `response_model` check of the parsed object is framework code too.
- Logging, FastAPI routing, the Pydantic models, environment loading and the Streamlit front end (frontend/app.py) are framework or UI code.
