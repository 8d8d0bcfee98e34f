# civitai-downloader, modelled in Dafny

A model of `download.py`, a command-line tool that downloads model files from
the CivitAI API. It is invoked as `download.py <model_ids> <output_path>`. The
model covers the parts of the program that decide things:

- **Token resolution** (`get_token`, and the prompt in `main`). A non-empty
  value in the token environment variable wins. Otherwise the stripped text
  of the token file is used. A file that cannot be read gives no token. The
  user is prompted only when that result is `None` or empty, and what they
  type is stored in the token file.
- **Model-id parsing** (`main`). The first argument is split on commas,
  each field is stripped, and empty fields are dropped.
- **The two-hop download** (`download_file`).
  - The first request carries the bearer token and must be answered with a
    redirect status that has a non-empty `Location`.
  - The second request goes to that URL with only a `User-Agent` header and
    must be answered with exactly 200.
  - The output filename is taken from the `filename=` parameter of
    `Content-Disposition`. Failing that, it is the last `/`-segment of the
    redirect URL, cut at `?`.
  - The body is streamed to the file chunk by chunk until an empty read.
- **The batch loop** (`main`). Each parsed id is attempted once, in order.
  A failure is reported and the loop goes on.

Files:

- `wrappers.dfy`: `Option` and `Result`.
- `pystr.dfy`: the Python `str` operations the program uses. These are `in`,
  `split(sep)`, `strip()` over the full Unicode whitespace set, and
  `strip(chars)`. Each is proved against an independent characterisation.
- `token_store.dfy`: `get_token`, `store_token` and the prompt step of `main`.
- `download.dfy`: the request and response records, the redirect checks, the
  filename rules, and the streaming loop as a method with loop invariants.
  `DownloadOutcome` is the function that specifies `download_file`.
  `DownloadFile` is the method that meets it.
- `cli.dfy`: id parsing, the output directory as a map from file names to
  bytes, the batch loop as a method with loop invariants, and `main`.

The environment around the program is passed in as parameters:

- The network is a function from requests to responses. Each response body
  is the sequence of chunks that successive `read(CHUNK_SIZE)` calls return,
  followed by either end-of-stream or a read that raises.
- The environment variables are a map.
- The token file is either its text or unreadable.
- The prompt answer is a string.
- The output directory is a map from file names to contents.

Exceptions become `Result` values. The `DownloadError` cases are the ways
`download_file` raises in its own code, plus a body read that raises. The
exceptions `urlopen` raises by itself are listed under "## Left out".

What the code does and does not do:

- The code never creates the output directory. It has no `mkdir` for it.
- The code has no ZIP extraction and no `--no-extract` flag. `zipfile` is
  imported but never used.
- The code does not rely on redirects being followed. It takes the first
  response, requires a redirect status, and sends its own second request
  without the `Authorization` header. It accepts only status 200 on that
  second request, not any 2xx.
- The code reads the environment variable before the token file.

## Model

| member | source | states |
|---|---|---|
| PyStr.Split | download.py:99 | Python's `s.split(sep)`: at least one piece. Its meaning is stated by `SplitAtFirst` and `JoinSplit` |
| PyStr.IndexOf | download.py:98 | `pat in s`: the result is the least index where `pat` occurs, and there is none exactly when `pat` occurs nowhere |
| PyStr.IndexOfIs | download.py:98 | An occurrence with none before it is the one found |
| PyStr.JoinSplit | download.py:146 | Joining the pieces of `s.split(sep)` with `sep` gives `s` back |
| PyStr.SplitAtFirst | download.py:99 | `split` against `find`: without an occurrence `s` is the only piece; otherwise the first piece ends at the first occurrence and the rest is the split of what follows it |
| PyStr.SplitAt | download.py:99 | The first piece ends at the first occurrence of the separator |
| PyStr.SplitWithout | download.py:99 | A string without the separator splits into itself alone |
| PyStr.SplitNoSep | download.py:146 | A string without the separator character splits into itself alone |
| PyStr.SplitConcat | download.py:146 | The split of `a + c + b` on `c` is the split of `a` followed by the split of `b` |
| PyStr.SplitJoin | download.py:146 | Splitting the `c`-join of `c`-free pieces gives the pieces back |
| PyStr.SplitPiecesFree | download.py:146 | No piece of a split on `c` contains `c` |
| PyStr.SplitFirstPiece | download.py:102 | `s.split(c)[0]` is the prefix of `s` before the first `c`, or all of `s` |
| PyStr.SplitLastPiece | download.py:102 | `s.split(c)[-1]` is the suffix of `s` after the last `c`, or all of `s` |
| PyStr.StripStart | download.py:45 | `lstrip`: the result is a suffix that does not start with a stripped character, and everything removed is a stripped character |
| PyStr.StripEnd | download.py:45 | `rstrip`: the result is a prefix that does not end with a stripped character, and everything removed is a stripped character |
| PyStr.Strip | download.py:45 | `strip`: the result is an infix of `s` whose ends are not stripped characters, and everything removed on either side is a stripped character |
| PyStr.StripKeepsOut | download.py:146 | Stripping introduces no character |
| PyStr.StripUnchanged | download.py:146 | A string with no stripped character at either end is left as it is |
| PyStr.StripIdempotent | download.py:146 | Stripping twice is stripping once |
| TokenStore.TokenVariable | download.py:15 | `DEFAULT_ENV_NAME`: the value of `CIVITAI_TOKEN_NAME`, or `CIVITAI_TOKEN` when it is unset. Its role is stated by `GetToken` and `EnvironmentWins` |
| TokenStore.EnvToken | download.py:40 | `os.getenv(DEFAULT_ENV_NAME, None)`. Its role is stated by `GetToken` and `EnvironmentWins` |
| TokenStore.StoreToken | download.py:51-55 | The token file afterwards holds exactly the token. Read back by `PromptedTokenIsReadBack` |
| TokenStore.GetToken | download.py:39-48 | A non-empty environment value is returned as it is. Otherwise an unreadable file gives None, and a readable file gives its text with the surrounding whitespace removed |
| TokenStore.ResolveToken | download.py:140-143 | The token step of `main`, with `prompt_for_civitai_token` (download.py:58-61): the user is prompted exactly when `get_token()` is falsy. An environment token wins and leaves the file alone. Otherwise a truthy file token is used unchanged. A prompted token is used and stored as the file's whole text |
| TokenStore.EnvironmentWins | download.py:40-42 | With a non-empty environment value, whatever the token file holds, that value is the token and no prompt happens |
| TokenStore.PromptedTokenIsReadBack | download.py:140-143 | After a prompt, the next resolution reads the typed token back from the file, stripped, and prompts again only if that is empty |
| Download.Header | download.py:80 | `response.getheader(name)`: the header's value, or None when the response lacks it. Used for `Location` in `RedirectTarget` and for `Content-Disposition` in `DownloadOutcome` |
| Download.AuthenticatedRequest | download.py:65-71 | The first request: the model URL, a bearer `Authorization` header and the `User-Agent`. `DownloadOutcome` states that it is sent first |
| Download.RedirectRequest | download.py:85-88 | The second request: the redirect URL with a `User-Agent` header only. `DownloadOutcome` states that its header keys are exactly `User-Agent` |
| Download.RedirectTarget | download.py:77-82 | The first response is accepted exactly when its status is 301, 302, 303, 307 or 308 and its Location is non-empty. The target is then that Location. Otherwise the error is UnexpectedResponse(status), or NoRedirectUrl for a redirect without a Location |
| Download.DispositionFilename | download.py:95-99 | A header filename exists exactly when the header is present and contains `filename=`. It neither starts nor ends with `"` |
| Download.DispositionFilenameBetween | download.py:98-99 | The header filename is the text between the first `filename=` and the next one (or the end), with surrounding `"` stripped |
| Download.UrlFilename | download.py:102 | The fallback filename contains neither `/` nor `?` |
| Download.UrlFilenameIsLastSegment | download.py:102 | The fallback filename is the text after the last `/` of the redirect URL (or the whole URL), up to the first `?` after it (or the end) |
| Download.ResolveFilename | download.py:96-102 | A non-empty header filename is used. Otherwise the fallback is used, which then holds no `/` and no `?` |
| Download.QuotedFilenameWins | download.py:95-102 | A header `p + 'filename="' + n + '"'` names the file `n` (for instance `attachment; filename="x.zip"` gives `x.zip`), whatever the redirect URL is, provided neither `p` nor `n` holds an `=`, and `n` is non-empty and neither starts nor ends with `"` |
| Download.FirstParameterAfter | download.py:98-99 | Without an `=` before it, the first `filename=` is the one that was placed there, and the text after it is what followed |
| Download.NoParameterWithoutEquals | download.py:98 | A string without `=` does not contain `filename=` |
| Download.StripQuotes | download.py:99 | Stripping the quotes around a name that has no quote at its ends gives the name |
| Download.ReadChunk | download.py:114 | The `k`-th `response.read(CHUNK_SIZE)`: a chunk, an empty chunk at end of stream, or None when the read raises. `StreamBody` states what the loop over it yields |
| Download.Delivered | download.py:113-116 | The chunks written are the longest prefix of non-empty reads. When reads remain, the next one is empty |
| Download.TotalLengthIsSize | download.py:118-119 | The byte counter equals the number of bytes written |
| Download.StreamBody | download.py:109-119 | After the loop, the file holds the concatenation of the chunks read before the first empty one, in order. `downloaded` is its length, one write is made per such chunk, and the loop completes exactly when it ends at an empty read rather than a failed one |
| Download.FullReads | download.py:114 | Reading a body in reads of at most `CHUNK_SIZE` bytes gives non-empty chunks of at most that size |
| Download.FullReadsAllDelivered | download.py:113-116 | When the body is read in full reads, every chunk is written and the stream ends cleanly |
| Download.FullReadsWriteWholeBody | download.py:112-118 | A body of S bytes is written whole: the file holds exactly those S bytes |
| Download.FullReadsCount | download.py:114-118 | A body of S bytes read C at a time takes ceil(S/C) writes |
| Download.StreamFullReads | download.py:109-119 | Against a server that fills every `read(CHUNK_SIZE)`, the loop writes the whole body of S bytes, counts S, ends cleanly, and makes ceil(S / 1638400) writes |
| Download.DownloadOutcome | download.py:64-119 | `download_file` sends the authenticated request first and at most two requests. It follows the redirect exactly when that is accepted. The second request holds only a User-Agent. A file is written only after a 200, under a non-empty name, holding the delivered chunks. It succeeds exactly when both hops pass and the stream ends cleanly, reporting the file size. A failure after the file was opened leaves the partial file behind. A rejected first response writes nothing and gives `RedirectTarget`'s error. A second response other than 200 writes nothing and gives `HttpError(status)`. After a 200, the file is written exactly when `ResolveFilename` gives a non-empty name, and under that name; an empty name gives `NoFilename` |
| Download.DownloadFile | download.py:64-119 | The method meets `DownloadOutcome` |
| Cli.ParseModelIds | download.py:146 | `[mid.strip() for mid in arg.split(',') if mid.strip()]`. Its meaning is stated by `ParseConcat` and `ParseSingle`, which together fix the ids of every argument, and by `ParseMembership` and `ParsedIdsWellFormed` |
| Cli.KeepStripped | download.py:146 | Every kept id is non-empty with no whitespace at either end, and there are no more ids than fields |
| Cli.ParsedIdsWellFormed | download.py:146 | Every parsed id is non-empty, has no surrounding whitespace, and contains no comma |
| Cli.KeepStrippedAvoids | download.py:146 | A character in no field is in no id |
| Cli.KeepStrippedMembers | download.py:146 | An id is kept exactly when it is the non-empty stripped form of some field |
| Cli.KeepStrippedAppend | download.py:146 | Keeping preserves order: the ids of two lists of fields are the ids of the first followed by the ids of the second |
| Cli.KeepStrippedWellFormed | download.py:146 | Fields that are already well-formed ids are all kept, unchanged |
| Cli.ParseMembership | download.py:146 | An id is parsed exactly when it is the non-empty stripped form of some comma-separated field: nothing else is added or dropped |
| Cli.ParseJoin | download.py:146 | Parsing well-formed ids joined by commas gives the ids back |
| Cli.ParseConcat | download.py:146 | The ids of `a,b` are the ids of `a` followed by the ids of `b`, so order is kept |
| Cli.ParseSingle | download.py:146 | An argument without a comma names at most one id, itself stripped |
| Cli.Save | download.py:112 | `open(output_file, 'wb')` replaces any file of that name. Stated over a batch by `LastWriterWins` and `UnwrittenUnchanged` |
| Cli.SaveAll | download.py:148-153 | The directory after the attempts, in order. Stated by `LastWriterWins`, `UnwrittenUnchanged` and `SaveAllOverlays` |
| Cli.LastWriterWins | download.py:112 | After a batch, a file holds what the last attempt that wrote its name wrote |
| Cli.UnwrittenUnchanged | download.py:148-153 | A name that no attempt writes keeps its earlier file, or its absence |
| Cli.SaveAllOverlays | download.py:148-153 | A batch overlays the files it writes on the directory it started from |
| Cli.RerunIdempotent | download.py:148-153 | Running the same batch again against the same network leaves the directory as the first run did |
| Cli.RunBatch | download.py:148-153 | One attempt per id, in order, each being that id's `download_file` outcome whatever became of the earlier ones. The directory afterwards is the starting one with the attempts' files written in order |
| Cli.RunMain | download.py:137-153 | The token is resolved before any download. Every parsed id is then attempted with that token, and the directory collects the files written |

## Left out

- Redirect following inside `urlopen`: with its default handlers, `urlopen` follows 3xx answers itself and raises `HTTPError` for 4xx and 5xx. The model treats each `urlopen` as returning the raw response, so every non-redirect status on the first hop is `UnexpectedResponse` and every non-200 status on the second is `HttpError`. A consequence is that, with those default handlers, the first response the code sees is never a 3xx. So the check at download.py:77 rejects every answer a redirecting server gives, and `download_file` as written always raises there. The model describes the decision logic as the code states it, for raw responses. Also, `urlopen`'s own redirect following re-sends the `Authorization` header to the redirect target, so the program as written forwards the token at download.py:74. The model's header property covers only the request built at download.py:85-88.
- `urlopen`'s own exceptions: the network is a total function that always answers. A connection that fails (`URLError`) and a URL `urlopen` refuses are not modelled. For example, an id with an inner space survives the stripping at download.py:146 and is put into the URL at download.py:70, where `http.client` raises `InvalidURL`.
- Header lookup: headers are a map from names to values. `http.client`'s case-insensitive lookup and its joining of repeated headers are not modelled.
- `Content-Length` and progress output: `int(total_size)`, the percentage, the MB/s figure and the clock feed only the progress line, so they are left out. A non-numeric `Content-Length`, which would raise, is not modelled.
- Printed messages, argument parsing with `argparse`, and the text of the exceptions are left out.
- Paths: `os.path.join(output_path, filename)` is not modelled. The directory is a map keyed by the filename. An empty filename is modelled as the `NoFilename` error, since opening the directory path raises. A filename that holds path separators, from the header, is not treated specially.
- File system failures: a failure to create or write the output file, and a failure of `store_token` (an unwritable home directory), are not modelled. A failed read of the body is modelled.
- `input()` failing at end of input is not modelled. The typed token is a parameter.
- Whitespace: `Whitespace` is the set of characters for which Python's `str.isspace()` holds, written out. The string model works on code points and has no normalisation.
