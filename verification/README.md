# epsonScan: a Dafny model of the scan server

epsonScan puts an Epson network scanner behind a small HTTP server. The
project models its two Python scripts:

- `scan_server.py` is the current server.
  - At start-up it writes the resolution (`DPI`, default `300`) and the
    scan directory into the `epsonscan2` configuration template
    `./scan_config.SF2` and its `.bak` copy.
  - `GET /scan` draws a fresh eight-letter file name prefix and substitutes
    it for the `PREFIX` placeholder. It then runs
    `epsonscan2 --scan <SCANNER_IP> ./scan_config.SF2`, answers with the
    name of the produced file or a 500 error report, and puts the
    placeholder back.
  - `GET /files/<name>` downloads a scanned file.
- `server.py` is the older script. It is meant to write `SCANNER_IP` and
  `DPI` into `/docker/scan_config.SF2`. As written, it discards the result
  of each `replace` and writes the file back unchanged (see Findings).

The model is written in pure functions:

- The server's state is the configuration text and its `.bak` copy, the
  listing of the scan directory with the names of its sub-directories, and
  the responses sent so far (`ScanServer.ServerState`).
- The environment is a map.
- The scanner process is an input (`ScanServer.ScanRun`): its exit code,
  its captured output, and the directory listing it leaves behind.
- The random source is a finite stream of letter draws.
- `sys.exit` and the exceptions a handler can raise are values
  (`Environment.Fatal`, `ScanServer.Raised`). At start-up `sys.exit` ends the
  process. Inside a request handler of the threading server it ends only that
  request's worker thread, and the connection closes with whatever was sent.

Modules, one per concern:

- `Outcomes`: `Option` and `Result`.
- `Text`: the Python string methods the server relies on.
- `Substitution`: `str.replace` and in-order dict application.
- `Environment`: `get_env_var` and `fatal_error`.
- `PrefixAllocator`: `_generate_prefix`.
- `Http`: responses and JSON bodies.
- `ScanServer`: `scan_server.py`.
- `LegacyServer`: `server.py`.

## Model

| member | source | states |
|---|---|---|
| Text.TrimTrailingSlashes | scan_server.py:79 | `rstrip("/")` yields a prefix of the path that does not end in '/', and only slashes were cut off |
| Text.LastSegment | scan_server.py:123 | `split("/")[-1]` is a slash-free suffix of the path that is either the whole path or preceded by '/' |
| Text.IsAlnum | scan_server.py:124 | `isalnum()` on ASCII: a non-empty string of letters and digits. It has no contract of its own; ScanServer.GetFile and ScanServer.GetFileServesInvalidName state what it decides |
| Text.WordsAround | scan_server.py:96 | `split()` of `a b rest c`, with `a`, `b` and `c` single words, is `a`, `b`, the words of `rest`, then `c` |
| Text.Words | scan_server.py:96 | `split()` with no argument, splitting on Python's full `isspace` set. It has no contract of its own and is characterised by Text.WordsAround and ScanServer.ScanCommandWords |
| Substitution.Replace | scan_server.py:66 | `str.replace(key, value)`: every non-overlapping occurrence, scanning left to right, becomes the value; an empty key inserts the value before every character and at the end. It has no contract of its own and is characterised by Substitution.ReplaceWithoutKey and Substitution.ReplaceLeftmost |
| Substitution.ReplaceWithoutKey | scan_server.py:66 | `replace` with a key that does not occur leaves the text unchanged |
| Substitution.ReplaceLeftmost | scan_server.py:66 | `replace` substitutes the leftmost occurrence first and resumes scanning right after it, so occurrences do not overlap |
| Substitution.ReplaceTakesEffect | scan_server.py:66 | replacing a key that occurs with a different value always changes the text |
| Substitution.ReplaceInsertsValue | scan_server.py:66 | replacing a key that occurs puts the value into the text |
| Substitution.ReplaceKeepsOccurrence | scan_server.py:66 | an occurrence of another string survives `replace` when no occurrence of the key starts close enough to overlap it |
| Substitution.ReplaceLengthDirection | scan_server.py:66 | a shorter value never lengthens the text, and a longer value never shortens it |
| Substitution.RestoreRoundTrip | scan_server.py:93-119 | substituting a lower-case token for a key and then the key back for the token restores the text, provided the token does not already occur and no key occurrence follows a lower-case letter |
| Substitution.ApplyReplacementsInOrder | scan_server.py:64-66 | the dict is applied in insertion order, one `replace` per entry on the text so far |
| Substitution.ApplyWithoutKeys | scan_server.py:64-66 | a dict none of whose non-empty keys occurs in the text leaves it unchanged |
| Substitution.RewriteInOrder | scan_server.py:64-66 | the `for key, value in replace_values.items()` loop, run entry by entry, computes the in-order application of the dict |
| Substitution.ApplyReplacements | scan_server.py:64-66 | the in-order application of a dict. It has no contract of its own and is characterised by Substitution.ApplyReplacementsInOrder, Substitution.ApplyWithoutKeys and Substitution.RewriteInOrder |
| Environment.GetEnvVar | scan_server.py:25-42 | a set variable is returned verbatim; a missing one makes `fatal_error` raise `SystemExit` with code 1 when it is required or has no default, and otherwise yields the default; it succeeds exactly when set or defaulted |
| Environment.Dpi | scan_server.py:48 | the resolution `get_env_var("DPI", default="300")` yields: the variable when set, 300 otherwise, never a failure |
| PrefixAllocator.Rounds | scan_server.py:140-142 | each round of eight draws spells one candidate of eight lower-case letters |
| PrefixAllocator.Matching | scan_server.py:111-115 | the list comprehension keeps exactly the listing entries that start with the prefix; it is empty exactly when the prefix is fresh, and its head is the earliest match |
| PrefixAllocator.FirstFresh | scan_server.py:141-149 | the loop returns the first candidate that no directory entry starts with, and returns nothing exactly when every candidate collides |
| PrefixAllocator.AllocatePrefix | scan_server.py:139-149 | an allocated prefix is eight lower-case letters that no entry of the scan directory starts with |
| PrefixAllocator.GeneratePrefix | scan_server.py:139-149 | the retry loop returns the same prefix as the round-by-round definition |
| ScanServer.ScanRouteIff | scan_server.py:79-82 | a path reaches the scan handler exactly when, ignoring case, it is `/scan` followed by any number of slashes |
| ScanServer.FilesRouteIff | scan_server.py:79-84 | a path reaches the file handler exactly when, ignoring case, it starts with `/files`, which includes `/filesxyz` |
| ScanServer.RouteIgnoresTrailingSlash | scan_server.py:79 | appending a slash never changes the route |
| ScanServer.RouteIgnoresCase | scan_server.py:79 | lower-casing the path never changes the route |
| ScanServer.ScanRouteExamples | scan_server.py:79-82 | `/SCAN`, `/scan/` and `/scan//` all reach the scan handler |
| ScanServer.CleanPath | scan_server.py:79 | `path.lower().rstrip("/")`. It has no contract of its own and is characterised by Text.TrimTrailingSlashes, ScanServer.RouteIgnoresCase and ScanServer.RouteIgnoresTrailingSlash |
| ScanServer.RouteOf | scan_server.py:81-87 | the dispatch of `do_GET`. It has no contract of its own and is characterised by ScanServer.ScanRouteIff and ScanServer.FilesRouteIff |
| ScanServer.OtherRouteExamples | scan_server.py:83-87 | `/filesxyz` goes to the file handler and `/unknown` gets the 404 |
| ScanServer.UpdateConfigFile | scan_server.py:59-72 | the configuration and its `.bak` copy receive the same text, the template with the dict applied in order; a dict none of whose keys occurs in the template leaves both files holding it |
| ScanServer.UpdateConfig | scan_server.py:45-56 | start-up fails with exit code 1 exactly when the scan directory path is a regular file; otherwise the directory exists afterwards, and both files hold the template with `DPI` (default 300) and then `RESULT_FOLDER` substituted |
| ScanServer.ScanCommandWords | scan_server.py:94-96 | the scanner is started with `epsonscan2`, `--scan`, the words of the scanner address, and the configuration path |
| ScanServer.ScanCommandForPlainAddress | scan_server.py:94-96 | an address without whitespace is passed as a single argument |
| ScanServer.ScanErrorBody | scan_server.py:100-107 | the JSON of a failed scan. It has no contract of its own and is characterised by ScanServer.ScanFailureResponse |
| ScanServer.ScanWithPrefix | scan_server.py:93-119 | whatever the scanner does, the configuration ends up armed with the prefix and then restored, and at most one response is added after the earlier ones; a process that cannot start answers nothing, and a zero exit with no file carrying the prefix sends the 200 status with no body and then fails on `files[0]` |
| ScanServer.DoScan | scan_server.py:90-119 | with `SCANNER_IP` unset, `fatal_error` raises `SystemExit(1)` before anything is touched or sent, ending that request with no answer while the server keeps running; otherwise the scan runs with that address and a freshly allocated eight-letter lower-case prefix; at most one response is added and earlier ones are kept |
| ScanServer.ScanFailureResponse | scan_server.py:97-107 | a non-zero exit gives exactly one 500 response whose JSON has the keys message, returncode, output and command, with the exit code and the argument list |
| ScanServer.ScanSuccessResponse | scan_server.py:108-117 | a zero exit gives exactly one 200 response whose JSON holds only `filename`, the earliest directory entry starting with the prefix |
| ScanServer.ScanRestoresTemplate | scan_server.py:93-119 | when the lower-case prefix is absent from the template and no placeholder follows a lower-case letter, both the configuration and its `.bak` copy hold the template after a scan, whatever the outcome |
| ScanServer.RestoreNeedsLowerFreeBefore | scan_server.py:93-119 | a template `aPREFIX` with prefix `aaaaaaaa` comes back as `PREFIXa` |
| ScanServer.RestoreNeedsFreshPrefix | scan_server.py:93-119 | a template that already holds the prefix gets a placeholder it never had |
| ScanServer.Serve | scan_server.py:128-133 | the download adds one 200 response with the PDF content type and the attachment file name and changes nothing else; the file is sent, and nothing is raised, exactly when the name is a regular file of the scan directory rather than a missing name or a sub-directory |
| ScanServer.GetFileAsWritten | scan_server.py:121-133 | as written, a non-alphanumeric name gets the 404 with its JSON and then also the 200 download; the handler fails exactly when the name is not a regular file of the directory |
| ScanServer.GetFile | scan_server.py:121-133 | with the missing `return` added, every request gets exactly one response and nothing else changes; it is a 404 exactly when the name is not alphanumeric, and a file is sent exactly when the name is alphanumeric and a regular file of the directory |
| ScanServer.LastSegmentAfterSlash | scan_server.py:123 | the file name is what follows the last slash, in its original case |
| ScanServer.GetFileServesInvalidName | scan_server.py:124-133 | `GET /files/x.pdf` as written answers 404 and then 200 with the file; the corrected handler answers the 404 only |
| ScanServer.HandleGet | scan_server.py:77-88 | `/scan` routes run the scan handler and `/files` routes the file handler; an unknown route gets one 404 with no body; only the scan route changes anything besides the responses; earlier responses are kept |
| LegacyServer.ConfigMap | server.py:34-38 | the dict is `SCANNER_IP` then `DPI` (default 300), and building it fails with exit code 1 exactly when `SCANNER_IP` is unset |
| LegacyServer.UpdateConfigFileAsWritten | server.py:43-51 | as written, the file is written back exactly as read, whatever the dict holds |
| LegacyServer.UpdateConfigFile | server.py:43-51 | with each `replace` result kept, a one-entry dict whose key occurs and whose value differs changes the file |
| LegacyServer.UpdateConfig | server.py:34-40 | with the corrected rewrite, start-up fails exactly when `SCANNER_IP` is unset; otherwise the file holds the template with the address and then the resolution substituted |
| LegacyServer.RewriteMissesScannerIp | server.py:47-48 | for a template holding the `SCANNER_IP` placeholder, the file as written still holds it, while the intended rewrite changes the file and puts the address into it |
| LegacyServer.RewritePlacesValues | server.py:34-48 | with the result of each `replace` kept, the dict `update_config` builds brings the resolution into the file whenever the template holds `DPI`, and the address whenever the template holds `SCANNER_IP` and the address contains none of the letters D, P, I |
| LegacyServer.AddressSpellingDpiIsRewritten | server.py:37-38 | an address spelled `DPI` is itself replaced by the resolution, so the letter condition above is needed |

## Left out

- The HTTP plumbing is left out: `BaseHTTPRequestHandler`, `run_server`, `main` and the listening socket on port 8080. Only the status, headers and body of each response are modelled.
- Concurrency under `ThreadingHTTPServer` is left out. Two overlapping scans racing on the configuration file cannot be expressed in a sequential model.
- File system access is abstract:
  - The configuration file is a pair of strings (file and `.bak`).
  - The scan directory is a listing of names, with the set of those that are sub-directories.
  - A scan replaces the listing but keeps the set of sub-directories: `epsonscan2` is taken to add regular files only.
  - Its kind at start-up is an input.
  - Read and write errors on the configuration file are not modelled.
- `epsonscan2` is an input (`ScanServer.ScanRun`). Its output is captured only when the run says so. `subprocess.run` is called without `capture_output`, so in practice it is `None`, which becomes JSON `null`.
- PrefixAllocator.AllocatePrefix: `random.choice` is a finite stream of draws. Where Python would keep drawing forever, the model stops with `DrawsExhausted` once the stream runs out.
- The JSON byte encoding is not modelled; bodies are maps. The file bytes are not modelled; a file body is the file's name.
- The `print` logging is left out, and so is the stderr message of `fatal_error`. Only its exit code and reason are kept.
- Text.Lower: letters and digits are ASCII only, so Unicode case mapping is not modelled. The same goes for `isalnum` on non-ASCII letters and digits (Text.IsAlnum).
- ScanServer.ScanRestoresTemplate: the template is shown unchanged only when the prefix does not already occur in it and no `PREFIX` follows a lower-case letter. Without these conditions the round trip does not hold (ScanServer.RestoreNeedsLowerFreeBefore, ScanServer.RestoreNeedsFreshPrefix).
- ScanServer.GetFile: the code sends no 404 for a missing file. When the name is alphanumeric but not a regular file (missing, or a sub-directory), `open` raises after the 200 status and headers were sent, and the model follows the code.
- ScanServer.HandleGet dispatches to the corrected ScanServer.GetFile. The as-written handler is ScanServer.GetFileAsWritten.
- LegacyServer.UpdateConfig uses the corrected LegacyServer.UpdateConfigFile. It takes the file's text rather than the `config_file_path` argument; opening the file at that path is not modelled.
- LegacyServer.UpdateConfigFile: its own contract says only that a one-entry dict changes the file. For the two-entry dict `update_config` builds, LegacyServer.RewritePlacesValues states which values reach the file.
- LegacyServer.RewritePlacesValues: the address is shown to reach the file only when it contains none of the letters D, P, I. Otherwise the `DPI` replacement can consume part of it (LegacyServer.AddressSpellingDpiIsRewritten).

## Findings

| source | as written | input that shows it | evidently intended | confidence | as-written member | corrected member |
|---|---|---|---|---|---|---|
| server.py:47-48 | `new_config.replace(key, value)` discards its result, so the file is written back unchanged | a template containing `SCANNER_IP` with `SCANNER_IP=10.0.0.5` set | `new_config = new_config.replace(key, value)`, so that the address and resolution reach the file | high, not executed | LegacyServer.UpdateConfigFileAsWritten (with LegacyServer.RewriteMissesScannerIp) | LegacyServer.UpdateConfigFile (with LegacyServer.RewritePlacesValues) |
| scan_server.py:124-128 | the invalid-name branch sends 404 and its JSON but does not return, so the 200 download follows | `GET /files/x.pdf` with `x.pdf` in the scan directory | return after the 404, so that invalid names are never served | high, not executed | ScanServer.GetFileAsWritten (with ScanServer.GetFileServesInvalidName) | ScanServer.GetFile |
