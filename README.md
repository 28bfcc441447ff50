# top5 and fix_create_session in Dafny

A model of two small Python system scripts and proofs about it.

- `top5.py` ranks the running processes by memory use. It also reads the disk
  counters of a process and parses the output of a shell pipeline that lists
  the largest files (`du -b` on POSIX systems, `forfiles` on Windows).
- `fix_create_session.py` asks for the six parameters of a FIX session and
  checks them. It Base64-encodes the password, renders a `[SESSION]` block,
  asks for confirmation and a file name, and appends the block to the
  configuration file after backing that file up.

Everything the scripts take from their environment is a parameter of the model:

- what `psutil` returns for each process;
- the captured standard output of the shell command;
- the console answers;
- the `strftime` text of the clock;
- the file system, as a map from file name to contents.

The files:

| file | module | models |
|---|---|---|
| `wrappers.dfy` | `Wrappers` | `Option` and `Result` |
| `py_text.dfy` | `PyText` | Python `str` as code points: `isspace`, `strip`, `lower`, `split`, `splitlines`, `int`, `str` |
| `utf8.dfy` | `Utf8` | `str.encode('utf-8')` and strict `bytes.decode('utf-8')` (RFC 3629) |
| `base64.dfy` | `Base64` | `base64.b64encode` (section 4 of RFC 4648), with a strict decoder as its inverse |
| `top5.dfy` | `Top5` | `get_top_memory_processes`, `get_process_disk_usage`, the output parsing of `get_top_disk_files` |
| `fix_create_session.dfy` | `FixCreateSession` | `encrypt_password`, the checks of `get_user_input`, `create_fix_session_config`, `display_preview`'s answer, `add_to_file`, `main` |

## Design

- **Text.** A Python `str` can hold a lone surrogate. A Dafny `char` cannot, and
  the fallback branch of `encrypt_password` exists exactly for that case. So text
  is `Str = seq<CodePoint>`, with code points as integers below 0x110000.
  `Lit` turns a Dafny string literal into a `Str`.
- **Processes.** The loop over `psutil.process_iter()` is `Top5.CollectProcesses`,
  a `while` loop. The loop over output lines is `Top5.ParseLines`. Each is proved
  against a recursive function (`Successes`, `ParseEntries`).
- **Sorting.** CPython's `sorted(..., reverse=True)` is Timsort. It is
  modelled by an insertion sort that is descending and stable. The model
  proves three things about it:
  - it is a permutation;
  - it is ordered;
  - within every score, discovery order is kept.

  Python's `reverse=True` keeps equal keys in their original order, and
  `SortStable` is that promise. The three properties together allow only one
  result, so the choice of algorithm does not matter.
- **File store.** `FileStore` is a class with a `files: map<Str, Str>` field.
  `AddToFile` updates it in place and returns the function's `True`/`False`.
  The write succeeds exactly when the configuration can be encoded, that is when
  it holds no lone surrogate. Then the new state is the function `AfterAdd`, and
  the lemmas beside that function state the backup, the append and the frame.
  Otherwise the new state is `AfterFailedAdd`: the backup is made and the file
  is opened for appending, but nothing is written. That is always what happens
  to a password that takes the fallback of `encrypt_password`
  (`SurrogatePasswordNotWritten`).
- **Partner definitions.** Three functions are not in the source; they exist
  to state round trips:
  - `Base64.Decode`, a strict RFC 4648 decoder that also refuses bits left
    over by the padding (section 3.5 of RFC 4648);
  - `Utf8.Decode`, strict UTF-8 decoding (this one is also the source's
    `.decode('utf-8')`);
  - `FixCreateSession.ReadConfig`, a reader for the rendered block.
- **`str.split()` partner.** `PyText.JoinWords` is the partner of `Tokens`.

## Model

| member | source | states |
|---|---|---|
| Top5.CollectProcesses | top5.py:31-43 | The loop appends exactly the successful queries, in discovery order; a failed query is skipped and the loop goes on. |
| Top5.SuccessesMember | top5.py:31-43 | A row is collected if and only if some query returned it. |
| Top5.RankedIgnoresFailure | top5.py:39-43 | Inserting a failed query (NoSuchProcess, AccessDenied, ZombieProcess or any other error) anywhere in the listing leaves the ranking unchanged. |
| Top5.GetTopMemoryProcesses | top5.py:23-47 | Returns the sorted successes cut at N; an exception from the call at line 25 gives []. |
| Top5.SortPermutes | top5.py:46 | The sort is a permutation of the collected rows. |
| Top5.SortSorted | top5.py:46 | The sort orders rows from the highest memory score to the lowest. |
| Top5.SortStable | top5.py:46 | Rows with equal scores keep their discovery order (Python's sort is stable, also with `reverse=True`). |
| Top5.SliceTo | top5.py:47 | `s[:n]` has `min(n, len(s))` elements for `n >= 0` and drops the last `-n` for negative `n`; it is always a prefix. |
| Top5.RankedLength | top5.py:46-47 | For N >= 0 the ranking holds min(N, number of successful queries) rows. |
| Top5.RankedSorted | top5.py:45-47 | The returned top N is in descending score order. |
| Top5.RankedStable | top5.py:46-47 | Among ranked rows of one score, the order is discovery order, and they are the first rows of that score that were discovered. |
| Top5.RankedFromSuccesses | top5.py:31-47 | Every ranked row came from a successful query, and no row appears more often than it was read. |
| Top5.RankedLeftOutBelow | top5.py:45-47 | Every successful row left out of the top N scores no higher than the last ranked row. |
| Top5.RankedTieKeepsDiscoveryOrder | top5.py:46-47 | With A discovered before B and C, and B and C tied above A, the top 2 is [B, C]. |
| Top5.DiskUsage | top5.py:62-72 | Returns the read and write counters when `io_counters()` succeeds, and (0, 0) for any failure. |
| Top5.WithDiskUsage | top5.py:147-151 | Each displayed process is paired, in rank order, with its own pid's disk counters, or with (0, 0) when that query fails. |
| Top5.PosixEntryRule | top5.py:114-120 | A `du` line is kept if and only if it splits into exactly two tokens and the first parses with `int()`; the pair is (second token, size). |
| Top5.WindowsEntryRule | top5.py:98-104 | A `forfiles` line is kept if and only if it has at least two tokens and the second parses with `int()`; the pair is (first token, size). |
| Top5.ParseLines | top5.py:96-122 | The loop appends the pair of every valid line in line order and skips invalid lines (the `ValueError` branch). |
| Top5.ParseEntriesAppend | top5.py:98-122 | Parsing is line by line: the pairs of two pieces of output are the pairs of the first followed by those of the second. |
| Top5.ParseEntriesMember | top5.py:98-122 | A pair is in the result if and only if some output line parses to it. |
| Top5.GetTopDiskFiles | top5.py:89-127 | The stripped, split output of the branch for the platform, parsed; a failed command gives []. |
| Top5.PosixEntryOfDuLine | top5.py:110-120 | Round trip: a `du -b` line "size<TAB>path" reads back as (path, size) when the path has no whitespace. |
| Top5.PosixSkipsPathWithBlank | top5.py:115-116 | A `du -b` line whose path contains a space has three tokens, so that file is dropped. |
| Top5.WindowsEntryOfLine | top5.py:98-104 | Round trip: "path size" reads back as (path, size), whatever further words follow. |
| PyText.StripSlice | fix_create_session.py:26-33 | `strip()` returns a contiguous piece of the answer, and only whitespace is cut from either side. |
| PyText.StripEnds | fix_create_session.py:26-33 | What `strip()` returns neither starts nor ends with whitespace. |
| PyText.StripEmpty | fix_create_session.py:26-35 | `strip()` yields the empty string if and only if the text is all whitespace. |
| PyText.StripSurrounded | fix_create_session.py:107 | Whitespace around an answer does not change its stripped form. |
| PyText.TokensAreWords | top5.py:99 | Every token `split()` returns is non-empty and holds no whitespace. |
| PyText.TokensOfJoin | top5.py:99 | `split()` recovers words joined by single spaces. |
| PyText.ParseIntOfShow | top5.py:103 | `int(str(n)) == n` for every integer. |
| Utf8.Encode | fix_create_session.py:15 | `encode('utf-8')` fails if and only if the text holds a surrogate; otherwise it takes one to four bytes per code point. |
| Utf8.DecodeOfEncode | fix_create_session.py:15-16 | Decoding the UTF-8 encoding of a text gives the text back. |
| Base64.EncodeAlphabetThenPad | fix_create_session.py:15 | `b64encode` output is alphabet characters followed by exactly `PadCount(n)` '=' characters. |
| Base64.DecodeOfEncode | fix_create_session.py:15 | Decoding `b64encode(b)` gives `b` back. |
| FixCreateSession.EncryptPasswordEncodes | fix_create_session.py:12-16 | For an encodable password the result is exactly the Base64 text of its UTF-8 bytes; the `.decode` of ASCII cannot fail. |
| FixCreateSession.EncryptPasswordShape | fix_create_session.py:15-16 | The result has 4·⌈n/3⌉ characters for n UTF-8 bytes: alphabet characters, then 0 to 2 '='. |
| FixCreateSession.EncryptPasswordRoundTrip | fix_create_session.py:15-16 | Base64-decoding the stored password gives its UTF-8 bytes, and those decode back to the password. |
| FixCreateSession.EncryptPasswordFallback | fix_create_session.py:17-19 | A password that cannot be encoded (it holds a lone surrogate) is returned unchanged. |
| FixCreateSession.StripFieldsEmpty | fix_create_session.py:26-35 | A stripped field is empty if and only if the answer was blank. |
| FixCreateSession.ValidateMissingField | fix_create_session.py:26-36 | The "All fields ... are required" error happens if and only if some answer is blank, whatever the port. |
| FixCreateSession.ValidateInvalidPort | fix_create_session.py:35-42 | The "Port must be a valid number" error happens if and only if all answers are filled in and the stripped port does not parse with `int()`. |
| FixCreateSession.ValidateAccepted | fix_create_session.py:26-48 | Input is accepted if and only if no answer is blank and the port parses. The fields are then stripped, the port is kept as text, and the password is encrypted. |
| FixCreateSession.SessionSettings | fix_create_session.py:56-73 | The `[SESSION]` section has eighteen settings. |
| FixCreateSession.ConfigKeyOrder | fix_create_session.py:56-73 | The keys are always `BeginString` … `ResetOnDisconnect`, in that order. |
| FixCreateSession.ConfigOnlySixVary | fix_create_session.py:56-73 | Every setting except the six argument ones is the same for all inputs. |
| FixCreateSession.ConfigValuesVerbatim | fix_create_session.py:57-68 | The six argument settings carry their arguments verbatim. |
| FixCreateSession.ConfigStartsAndEnds | fix_create_session.py:52-74 | The text opens with a line feed and the timestamp comment line, and closes with "ResetOnDisconnect=Y" and a line feed. |
| FixCreateSession.BlockReadsBack | fix_create_session.py:52-74 | Any block whose lines contain no line feed reads back as its timestamp and settings. |
| FixCreateSession.ConfigReadsBack | fix_create_session.py:50-75 | Round trip: the rendered configuration reads back as the timestamp and the eighteen settings, with the values verbatim, if no value contains a line feed. |
| FixCreateSession.ConfirmSpelling | fix_create_session.py:107-108 | Confirmation holds exactly for "y" or "yes" in any letter case, after stripping. |
| FixCreateSession.ConfirmIgnoresBlanks | fix_create_session.py:107-108 | Whitespace around the answer does not change the decision. |
| FixCreateSession.ChooseFilenameRule | fix_create_session.py:122-124 | A blank answer gives "fix_sessions.cfg"; any other answer gives the stripped answer; the name is never empty. |
| FixCreateSession.BackupNameDiffers | fix_create_session.py:82 | The backup name never equals the file's own name. |
| FixCreateSession.AfterAddAppends | fix_create_session.py:88-90 | After the update the file holds its old contents (or nothing) followed by the configuration: sessions are appended, never overwritten. |
| FixCreateSession.AfterAddBackup | fix_create_session.py:81-86 | An existing file leaves a backup holding exactly its old contents, as decoded text. |
| FixCreateSession.AfterAddFrame | fix_create_session.py:79-90 | No file disappears, and no other file changes. The only new names are the backup (when the file existed) or the file itself (when it did not). |
| FixCreateSession.AfterAddTwice | fix_create_session.py:126-127 | Two sessions added one after the other are both in the file, in order. |
| FixCreateSession.FileStore.AddToFile | fix_create_session.py:77-98 | Returns True exactly when the configuration can be encoded. The store afterwards is then `AfterAdd` of the store before it; otherwise it is `AfterFailedAdd`, with the backup made and nothing appended. |
| FixCreateSession.AfterFailedAddKeeps | fix_create_session.py:81-96 | After a failed write the backup exists with the old contents, and the file keeps its contents or is created empty. No other file changes. |
| FixCreateSession.ConfigRefusedWithPassword | fix_create_session.py:52-74 | The password sits in the configuration text, so a password the encoder refuses makes the whole text unwritable. |
| FixCreateSession.SurrogatePasswordNotWritten | fix_create_session.py:14-19 | A stripped password with a lone surrogate passes validation unchanged, and then the configuration cannot be written at lines 89-90. |
| FixCreateSession.RunSession | fix_create_session.py:110-133 | Four outcomes. A validation error is reported with the message of its `ValueError` and changes no file. A declined preview changes no file. A confirmed preview appends the rendered block to the chosen file when it can be encoded ("successfully added"). Otherwise only the backup and the opened file remain ("Failed to add"). |

## Left out

- The `psutil` calls, `subprocess.run`, `os.name`, `input`, `getpass` and the
  clock are not modelled. Their results are parameters.
- The shell pipelines themselves (`find`, `xargs`, `du`, `forfiles`,
  `sort`, `head`) are foreign programs. Only their captured output is modelled,
  so the `head -n N` bound on the number of files is not.
- Printing is not modelled. This covers the error messages, the `display_*`
  functions, the preview, and the ANSI colouring of a process at 100%.
- The megabyte conversions in `display_top_memory_processes` are floating
  point and are left out.
- Top5.ProcessInfo: `memory_percent()` is a float. The model uses an integer
  score, so rounding and NaN are not captured; only the order of scores matters
  to the ranking.
- Top5.GetTopMemoryProcesses: does not model a failure raised while the
  generator of `process_iter` is iterated (`for p in processes:`, top5.py:32).
  That statement is outside both `try` blocks, so in the source the exception
  propagates out of the function and out of `main`. The model has only the
  failure of the call at line 25, which gives [].
- Top5.GetTopDiskFiles: does not distinguish an exception raised while parsing
  from one raised by the command, because the model's parsing cannot fail.
- PyText.SplitLines: splits at line feeds only. Python's `splitlines()` also
  splits at other separators: `\r`, `\r\n`, `\v`, `\f`, `\x1c`-`\x1e`, U+0085,
  U+2028 and U+2029.
- PyText.ParseInt: accepts an optional sign and ASCII digits only. Python's
  `int()` also accepts surrounding whitespace, underscores between digits and
  non-ASCII decimal digits. In the other direction, Python 3.11 and later (and
  the 2022 security releases) refuse a string of more than 4300 digits
  (`sys.int_max_str_digits`). The model has no such limit, so a port of 4301
  digits is accepted by `ValidateAccepted` and `ValidateInvalidPort`, while the
  script reports "Port must be a valid number".
- PyText.Lower: lower-cases ASCII letters only. For the answers "y" and "yes",
  non-ASCII letters cannot match either way.
- FixCreateSession.FileStore.AddToFile: the map holds decoded text. Newline
  translation is abstracted away: in text mode, reading turns `\r\n` and `\r`
  into `\n`, and writing turns `\n` into `os.linesep`. So for a CRLF file on
  POSIX, or any LF file on Windows, the real backup is not byte for byte the
  old file, as `AfterAddBackup` says it is for the map.
- FixCreateSession.FileStore.AddToFile: models one exception of
  `add_to_file`, the `UnicodeEncodeError` raised when the configuration holds a
  lone surrogate. It takes the locale encoding to be UTF-8; a locale with a
  narrower encoding refuses more characters.
- FixCreateSession.FileStore.AddToFile: leaves out every other exception. This
  covers `OSError` from `open`, and the `UnicodeDecodeError` (a `ValueError`) of
  a file that the locale encoding cannot decode. In that case the backup has
  already been opened with `'w'`, so it is left empty and nothing is appended.
  The map holds text that a strict decode produced, so copying it to the backup
  cannot fail.
- The default arguments `num_processes=5` (top5.py:7), `num_files=5`
  (top5.py:74) and `filename="fix_sessions.cfg"` (fix_create_session.py:77)
  are not modelled. The count and the file name are always explicit
  parameters, and `main` always passes the file name.
- FixCreateSession.RunSession: does not model `KeyboardInterrupt` or the
  generic `except Exception` of `main`.
- FixCreateSession.EncryptPassword: the surrogate fallback is modelled, but a
  `MemoryError` is not.
