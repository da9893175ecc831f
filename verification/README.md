# Neural-Nexus chat front-end: conversation log and request dispatch

This project models, in Dafny, the two pieces of sequential logic at the
heart of the Neural-Nexus chat front-end:

- `ConversationManager` (`utils/context_manager.py`): a bounded, ordered log
  of role-tagged messages. It is seeded with one system message. Each exchange
  appends a user message and an assistant message, and the log is cut back to
  its newest 20 entries. It can be rendered as labelled text lines and reset.
- The request logic of `utils/api_handler.py`:
  - `WeatherHandler._extract_city` pulls a city name out of a free-text query.
  - `GeminiHandler._process_file_input` classifies an attachment by MIME type.
  - `GeminiHandler.generate_response` turns a prompt and an optional file into
    at most one call to the AI provider, and turns every failure into a reply
    string.

Files:

- `wrappers.dfy`: `Option` (Python's `None`-or-value) and `Result` (a value,
  or the message of an exception raised instead).
- `text.dfy`: the Python string primitives the handlers use. These are
  `str.lower`, `str.split()` with no separator (Python's whitespace set),
  `" ".join`, `str.startswith` and `list.index`. The module also proves that
  `split` and `join` are inverse on tokens and on single-spaced strings.
- `context_manager.dfy`: the manager state `Manager(context, systemPrompt)`.
  Each method is a pure function from the old state to the new one. The file
  also has lemmas about whole histories of exchanges.
- `api_handler.dfy`: `ExtractCity`, `ClassifyMime`, `ProcessFileInput` and
  `GenerateResponse`. The file system and the AI provider are function
  parameters. The outcome records the provider calls that were made, so "the
  provider is not called" means the list of calls is empty.

Behaviour of the code worth knowing, which the model reproduces:

- The trim `self.context[-self.max_messages:]` does not protect the system
  message. From the tenth exchange on it is cut off, and it does not come
  back until `clear_context` (`LastTenExchanges`, `SystemMessagePresence`).
- `get_formatted_context` renders every message, the system message
  included, and labels it `"Assistant"`: every role other than `user` gets
  that label.
- `generate_response` ignores its `context` argument (`ContextIgnored`). The
  request it sends holds the prompt and at most the file's content, never the
  conversation history. Neither handler routes weather queries: nothing in
  these files decides that a query is about the weather.
- `_extract_city` looks for the first whole word `in` after lower-casing and
  splitting the query. Phrases such as "weather in" or "temperature in" play
  no special part.

## Model

| member | source | states |
|---|---|---|
| ContextManager.New | utils/context_manager.py:7-15 | A new manager's log is exactly one message, with role system and the default system prompt as its content. |
| ContextManager.Trim | utils/context_manager.py:23-24 | Cutting the log keeps min(length, 20) messages, and they are the newest ones: the result is a suffix of the input. |
| ContextManager.AddToContext | utils/context_manager.py:17-24 | After an exchange, the log has length min(old + 2, 20). Its last two entries are the user message and then the assistant message. It is a suffix of the old log followed by the pair, and what precedes the pair is a suffix of the old log. Below capacity nothing is dropped. The system prompt is unchanged. |
| ContextManager.GetContext | utils/context_manager.py:36-37 | Returns the current log itself, unchanged. |
| ContextManager.ClearContext | utils/context_manager.py:39-40 | After a reset, the log is exactly the manager's own system message, and the system prompt is kept. |
| ContextManager.ClearIdempotent | utils/context_manager.py:39-40 | Resetting twice equals resetting once, and resetting a fresh manager changes nothing. |
| ContextManager.Label | utils/context_manager.py:32 | The label is "User" exactly when the role is user, and "Assistant" for every other role, system included. |
| ContextManager.GetFormattedContext | utils/context_manager.py:28-34 | The loop that appends line after line yields the header "Previous conversation:\n" followed by the reference rendering of the log: one "Label: content\n" line per message, oldest first. |
| ContextManager.RenderAppend | utils/context_manager.py:31-33 | The rendering of two logs one after the other is the concatenation of their renderings, so each message contributes its own line in order. |
| ContextManager.FormatFresh | utils/context_manager.py:30-33 | A fresh or cleared manager renders as the header plus one Assistant entry, "Assistant: <system prompt>" and a newline, and no User entry. The default prompt holds newlines of its own, so that one entry spans several text lines. |
| ContextManager.FormatAfterAdd | utils/context_manager.py:19-20 | Below capacity, an exchange appends exactly a User line and then an Assistant line to the rendering. Every earlier line is left as it was. |
| ContextManager.ReplayMatchesReference | utils/context_manager.py:19-24 | From a log of at most 20 messages (every manager's state after `__init__`, `add_to_context` or `clear_context`), any sequence of exchanges, applied one at a time with a trim after each, gives the same log as appending them all and trimming once. The system prompt never changes. |
| ContextManager.ReplayLength | utils/context_manager.py:23-24 | From a fresh manager, after n exchanges the log has min(1 + 2n, 20) messages, so it never exceeds 20. |
| ContextManager.SystemMessageKept | utils/context_manager.py:15-24 | Through the first nine exchanges the system message stays first, followed by every exchange in order. |
| ContextManager.LastTenExchanges | utils/context_manager.py:23-24 | From the tenth exchange on, the log is exactly the messages of the last ten exchanges, and the system message has been cut off. |
| ContextManager.SystemMessagePresence | utils/context_manager.py:9-24 | A system message is present in the log if and only if fewer than ten exchanges have been added since the manager was created or cleared. |
| ContextManager.ClearRestoresNew | utils/context_manager.py:39-40 | Whatever exchanges happened, clearing gives back the manager exactly as `__init__` built it. |
| Text.Lower | utils/api_handler.py:75 | Lower-casing maps each character by itself and leaves no upper-case letter. In this model it also keeps the length. |
| Text.Split | utils/api_handler.py:75 | Every word produced by split is non-empty and has no whitespace in it. |
| Text.SplitToken | utils/api_handler.py:75 | A non-empty string without whitespace splits into exactly itself. |
| Text.SplitAtSpace | utils/api_handler.py:75 | Any whitespace character splits a string into the words before it followed by the words after it. With the empty string splitting into no words and `SplitToken`, this fixes the result of split on every string. |
| Text.Join | utils/api_handler.py:78-80 | `" ".join`: no words give the empty string, and otherwise the result begins with the first word. `SplitJoin` and `JoinSplit` show it is the inverse of split on tokens and on single-spaced strings, and `JoinSingleSpaced` shows that joined tokens are single-spaced. |
| Text.StartsWith | utils/api_handler.py:25-27 | `str.startswith`: true exactly when the prefix is no longer than the string and agrees with it character by character. |
| Text.IndexOf | utils/api_handler.py:77 | `list.index`: absent exactly when the word is not in the list. Otherwise it is the position of the first occurrence. |
| Text.SplitJoin | utils/api_handler.py:78 | Splitting the join of non-empty whitespace-free words gives those words back. |
| Text.JoinSplit | utils/api_handler.py:78 | A single-spaced string is the join of its own split. |
| Text.JoinSingleSpaced | utils/api_handler.py:78 | Joining non-empty whitespace-free words gives a single-spaced string: its only whitespace is one ' ' between two words, never leading, trailing or doubled. |
| ApiHandler.Words | utils/api_handler.py:75 | The query's words are whitespace-free tokens with no upper-case letter. |
| ApiHandler.WordsAtSpace | utils/api_handler.py:75 | Any whitespace character in a query separates the words before it from the words after it, after lower-casing as well. |
| ApiHandler.ExtractCitySeparator | utils/api_handler.py:73-80 | Replacing a single ' ' in a query by any other whitespace character (tab, newline, no-break space, ...) gives the same city. |
| ApiHandler.ExtractCity | utils/api_handler.py:73-80 | The extracted city has no upper-case letter and no leading, trailing or doubled whitespace. The only whitespace it contains is a single ' ' between words. |
| ApiHandler.ExtractCityAfterIn | utils/api_handler.py:76-78 | When the first "in" is at word i, the city's words are exactly the words after position i. When that "in" is the last word, the city is "". |
| ApiHandler.ExtractCityWithoutIn | utils/api_handler.py:79-80 | With no "in", the city is the last lower-cased word, or "" when the query has no words. |
| ApiHandler.ExtractCityIsTail | utils/api_handler.py:75-80 | For every query, the city's words are the query's last words, in order and unchanged. |
| ApiHandler.ExtractCityMarker | utils/api_handler.py:76-78 | For words w, a and b made of the lower-case letters a-z, with w not "in", the query "w in a b" gives the city "a b". |
| ApiHandler.ExtractCityFallback | utils/api_handler.py:79-80 | For three words made of the lower-case letters a-z, none of which is "in", the query of those words separated by single spaces gives the third word. |
| ApiHandler.ExtractCityExampleMarker | utils/api_handler.py:73-80 | "weather in new york" gives "new york". |
| ApiHandler.ExtractCityExampleFallback | utils/api_handler.py:73-80 | "random text tokyo" gives "tokyo". |
| ApiHandler.ExtractCityExampleTrailingIn | utils/api_handler.py:76-78 | "weather in" gives "". |
| ApiHandler.ClassifyMime | utils/api_handler.py:22-30 | No MIME type gives Unsupported. A type is Image exactly when it starts with "image/", and Text exactly when it starts with "text/" or "application/". Everything else is Unsupported. |
| ApiHandler.ClassifyByTopLevelType | utils/api_handler.py:25-27 | For a type "top/sub", only the top-level part decides: image gives Image, text or application gives Text, anything else gives Unsupported. |
| ApiHandler.ProcessFileInput | utils/api_handler.py:20-30 | An unsupported type gives None, and that is the only way to get None. An image type gives the opened image, and a text or application type gives the file's text. A failure to open or read is passed on as that exception's message. |
| ApiHandler.HasFile | utils/api_handler.py:38 | The truthiness of `file_path`: true exactly when it is neither `None` nor the empty string. |
| ApiHandler.WithContent | utils/api_handler.py:42-45 | An image is sent with the prompt as an image part, and text is sent as a text part. The prompt is always kept. |
| ApiHandler.Answer | utils/api_handler.py:49-52 | A provider success is returned as is. A provider failure becomes "Error processing request: " followed by its message. |
| ApiHandler.GenerateResponse | utils/api_handler.py:32-52 | At most one provider call is made, and it carries the prompt. With no or an empty file path, the request is the prompt alone. An unsupported file gives exactly "Unsupported file type." with no call. A file that fails to load gives the error reply with no call. A call is made exactly when there is no file, or the file loaded as an image or text. A loaded file's content is sent with the prompt: the one call is the prompt with that image or that text. A call's reply is the provider's text or the error reply. |
| ApiHandler.ContextIgnored | utils/api_handler.py:35-36 | The `context` argument has no influence on the outcome. |

## Left out

- The Gemini SDK (`genai.configure`, `GenerativeModel`, `generate_content`, `response.text`) is an opaque provider function from a request to its text or an exception message. Which exceptions the SDK raises is not modelled.
- `mimetypes.guess_type`, `Image.open` and reading a file as UTF-8 are file-system and library I/O. The file system is a parameter `files: string -> FileOnDisk`, which gives the guessed MIME type and the result of opening or reading the file. File sizes, encodings and handle lifetimes are not modelled.
- `WeatherHandler.get_weather_info` (`requests.get`, HTTP status, JSON decoding) is network I/O. `_format_weather_response` indexes untyped JSON and prints floating-point temperatures. Both are out of the model. Only `_extract_city` is modelled.
- `async`, logging and the constructors' API-key fields are left out. There is no concurrency, logging has no observable effect, and the key only configures the SDK.
- The `try`/`except` around `add_to_context` is left out because appending to and slicing a Python list of dicts cannot raise. So the model's `AddToContext` always succeeds, and the logged error path does not exist.
- `config.py` is left out: environment loading, and constants that the modelled code never reads (`ALLOWED_FILE_TYPES`, `MAX_FILE_SIZE`, `MAX_CONTEXT_LENGTH`, network and chart settings).
- Text.Lower: only maps the ASCII letters A-Z to a-z. Python's `str.lower` also lower-cases the rest of Unicode. The bound is a simplification of the string model, so `ExtractCity`'s "no upper-case letter" guarantee is about A-Z. "Keeps the length" holds of the model only: Python's `str.lower` can change a string's length (`'İ'.lower()` has two characters).
- ContextManager.GetContext: returns the log as a value. Python's `get_context` returns the live list `self.context`. A caller who appends to that list changes the manager's log. After the next trim (`utils/context_manager.py:24`) or `clear_context` (`utils/context_manager.py:40`) the manager holds a new list, and the caller's reference no longer reaches it. The model has no aliasing, because the two modelled files never write through the returned list. `ReplayLength` and `SystemMessagePresence` hold only if no caller does.
- `str(content)` on the text branch is the identity on a Python string, so the model sends the file's text unchanged.
