# cathack, modelled in Dafny

`cathack` is a "hacker typer". It clears the terminal's ECHO and ICANON flags and reads keystrokes one
at a time. Each keystroke copies the next chunk of at most `opt_factor` bytes (4 in the code)
of the files named on the command line to standard output, file after file. EOT (Ctrl-D,
byte 4) or end of input stops it. So does the keystroke that finds the last file
exhausted. A file that cannot be opened ends the run with a one-line diagnostic
`cathack: <path>: <error text>`.

This project models the program's `main`: the start-up checks, the playback loop and the
diagnostics written by `error`, `fail` and `fatal`. It then proves what the loop promises.

- `stdio.dfy` (module `Stdio`) holds the stdio calls the loop uses, as pure operations on
  values:
  - standard input is the sequence of bytes typed, a read position and a one-byte
    `ungetc` slot, and the end of that sequence is EOF;
  - an open file is its bytes and a read position;
  - `fopen` succeeds exactly for the paths in a map of readable files;
  - `fread` returns min(count, bytes left).
- `diagnostics.dfy` (module `Diagnostics`) holds the exit record (status, standard output,
  standard error) and `error`/`fail`.
- `cathack.dfy` (module `Cathack`) holds the program itself:
  - `Step` is one iteration of `while(1)` and `Play` is the loop run to its end;
  - `Run` is the whole program as a function;
  - the method `Cathack` follows the C code statement by statement, with the loop variables
    `current_file`, `fp`, the stdin stream and the output so far, and is proved equal to
    `Run`.
- `properties.dfy` (module `CathackProperties`) holds the lemmas about `Step`, `Play` and
  `Run`.

The chunk factor is a field of the invocation, not the constant 4, so the bound check
against `CATHACK_BUFSIZE - 1` (255) means something. The code does not reject a factor of
0 (cathack.c:77). With factor 0, `fread` reads nothing, every file looks exhausted, and the run writes
nothing and ends on the first keystroke, or fails at the first file that cannot be opened.
The lemmas state this case separately (`factor == 0 ==> ...`).

The code parses no options, although the usage line (cathack.c:35) mentions
`[options]`. After the last file it stops and does not wrap around to the first
(cathack.c:97-100); `NoWrapAround` proves this. ECHO and ICANON are cleared before the argument check (cathack.c:69-75).

## Model

| member | source | states |
|---|---|---|
| Stdio.GetChar | cathack.c:88 | `getchar`: the pushed-back byte if there is one, else the next typed byte, else EOF; the result is EOF or a byte, and the stream stays valid with its pushback slot empty. Its order property is `GetCharTakesFirst`. |
| Stdio.UngetC | cathack.c:95 | `ungetc`: fills the one-byte pushback slot, keeping the typed bytes. Its properties are `UngetCPrepends` and `UngetThenGet`. |
| Diagnostics.Error | cathack.c:39-46 | `error(prefix, msg)`: the line written to standard error. Its layout and injectivity are stated by `ErrorLayout`, `ErrorDeterminesMessage`, `ErrorDeterminesPrefix` and `ErrorIsOneLine`. |
| Diagnostics.Fail | cathack.c:49-59 | `fail` and `fatal` (with the error text of the failed open as message): the run ends with Failure, standard output as written so far, and the `Error` line on standard error. `FirstFileUnopenable`, `LaterFileUnopenable`, `StepKeepsOrder` and `RunWritesFilesInOrder` state where it is used. |
| Cathack.Play | cathack.c:87-108 | The `while(1)` loop from a state to its end, one `Step` at a time; it terminates because `Step` moves to a later file or position. Its properties are `PlayWritesFilesInOrder`, `PlayStopsAtEot`, `ExhaustedFilesConsumeNoKeystroke`, `NoWrapAround` and `SingleFileChunks`. |
| Cathack.Run | cathack.c:61-110 | The whole of `main`: the argument and factor checks, the first `fopen`, then `Play`. Its properties are `NoFileArgumentsIsUsageError`, `FactorAboveBufferRejected`, `FirstFileUnopenable`, `RunWritesFilesInOrder`, `EotEndsRun` and `KeystrokesToPlayFile`; `Cathack` is proved equal to it. |
| Stdio.GetCharTakesFirst | cathack.c:88 | `getchar` delivers the pending input in order. It returns EOF exactly when nothing is pending, and then changes nothing. Otherwise it returns the first pending byte and drops it from what is pending. |
| Stdio.UngetCPrepends | cathack.c:95 | `ungetc` puts its byte in front of the pending input. |
| Stdio.UngetThenGet | cathack.c:88-95 | The `getchar` after an `ungetc(c)` returns `c`, and the stream is then as it was before the `ungetc`. |
| Stdio.FOpen | cathack.c:82-83 | The model's assumption about the file system, not a derived property: `fopen` succeeds exactly when the path is in the map of readable files, positioned at the start of that file's bytes. |
| Stdio.FRead | cathack.c:93 | `fread` returns min(count, bytes left) bytes and advances the position by that many; the file's bytes do not change. |
| Stdio.FReadKeepsOrder | cathack.c:93 | The bytes `fread` returns, followed by what is left afterwards, are exactly what was left before. |
| Diagnostics.ErrorLayout | cathack.c:39-46 | A diagnostic is `"cathack: "`, then `prefix + ": "` when a prefix is given, then the message and `"\n"`, with nothing else (its exact length). |
| Diagnostics.ErrorDeterminesMessage | cathack.c:39-46 | Under one prefix, the diagnostic determines the message. |
| Diagnostics.ErrorDeterminesPrefix | cathack.c:39-46 | With one message, the diagnostic determines whether a prefix was given, and which. |
| Diagnostics.ErrorIsOneLine | cathack.c:39-46 | A diagnostic whose parts hold no newline is exactly one line: its only newline is the last character. |
| Cathack.Step | cathack.c:87-108 | An iteration that does not stop leaves a consistent state: the current file is one of `argv[1..]`, is open and reads that file's bytes. It has moved on, to a later file or further into the same one, so the loop terminates. |
| Cathack.Cathack | cathack.c:61-110 | The program as written, with its `while(1)` loop, produces exactly `Run`: the exit status, standard output and standard error. |
| CathackProperties.NoFileArgumentsIsUsageError | cathack.c:72-75 | With `argc <= 1`, the usage line goes to standard error and the run fails with nothing on standard output. The result does not depend on any file, so no file is opened. |
| CathackProperties.FactorAboveBufferRejected | cathack.c:77-80 | A factor above 255 fails with `Type factor cannot be >255`. The result does not depend on any file, so none is opened. |
| CathackProperties.FirstFileUnopenable | cathack.c:82-85 | A first file that cannot be opened fails with `cathack: <path>: <error text>` and writes nothing to standard output. |
| CathackProperties.LaterFileUnopenable | cathack.c:94-104 | When the key that finds the current file exhausted moves on to a later file that cannot be opened, the run fails with `cathack: <path>: <error text>` for that file, keeping what was written so far. |
| CathackProperties.DefaultFactorPlaysFile | cathack.c:13 | The built-in factor 4 passes the check at cathack.c:77, and with one file and m keys, none of them EOT, the run writes exactly the first min(length, 4·m) bytes. |
| CathackProperties.ChunkPerKeystroke | cathack.c:88-93 | For a positive factor, a key other than EOT, with r > 0 bytes of the current file left, writes the next min(factor, r) bytes of that file unchanged. It advances the read position by as many and stays on that file. |
| CathackProperties.TerminatorEndsPlayback | cathack.c:88-91 | EOT or end of input stops playback at once with success, nothing more written and nothing on standard error, even mid-file. |
| CathackProperties.PlayStopsAtEot | cathack.c:88-91 | Playback reads nothing after an EOT: cutting the input just before it gives the same result. |
| CathackProperties.EotEndsRun | cathack.c:88-91 | An EOT at position k of the input ends the run exactly as end of input at k would. |
| CathackProperties.ExhaustedFilesConsumeNoKeystroke | cathack.c:94-105 | The key that finds the current file exhausted is pushed back, so it is still pending. Crossing any run of empty files consumes no keystroke and writes nothing. Playback resumes at the start of the next non-empty file with that same key. |
| CathackProperties.NoWrapAround | cathack.c:97-100 | Once the current file and all later files are exhausted, the next key other than EOT ends the run with success and writes nothing: there is no wrap-around. |
| CathackProperties.StepKeepsOrder | cathack.c:87-108 | One iteration either extends the output with the front of what is left to play, or stops. A stop writes nothing more. A failing stop names the next file, which cannot be opened, after everything before it was written (for a positive factor). |
| CathackProperties.PlayWritesFilesInOrder | cathack.c:87-108 | The loop's invariant: the output only grows, and stays a prefix of what was written plus the rest of the current file and the files after it. A failure reports the first later file that cannot be opened, once all before it were written. Factor 0 writes nothing. |
| CathackProperties.RunWritesFilesInOrder | cathack.c:82-109 | Standard output is always a prefix of the files `argv[1..]` concatenated in order. Success is exactly the runs with nothing on standard error. A failure after the start-up checks reports the first file that cannot be opened, by path and error text; for a positive factor all the files before it were written in full. A factor of 0 writes nothing. |
| CathackProperties.ReachIsMin | cathack.c:93 | m reads of at most f bytes each, starting at `pos` in a file of `len` bytes, end at min(len, pos + m·f). |
| CathackProperties.SingleFileChunks | cathack.c:87-109 | In a one-file run with no EOT left, playback from position `pos` ends with success, having written the file up to where the remaining keystrokes reach. |
| CathackProperties.KeystrokesToPlayFile | cathack.c:82-109 | For one file and m keys, none of them EOT, with 0 < factor ≤ 255, the run writes exactly the first min(length, m·factor) bytes. It writes the whole file exactly when m·factor ≥ length, that is when m ≥ ⌈length / factor⌉. |

## Left out

- Terminal mode (`setup`, `teardown`, `atexit`, cathack.c:15-31 and 69-70): these are terminal attribute calls on an opaque structure. The code clears only ECHO and ICANON (cathack.c:22-23), before the argument check, and restores the saved attributes on every `exit()`; the model has no terminal state.
- A run ended by a signal (Ctrl-C raises SIGINT, since ISIG stays set) is not modelled: it skips the `atexit` handler, leaving echo off, and loses unflushed output. `typed` is the bytes the terminal delivers to `getchar`, not the keys pressed; keys the terminal turns into signals never appear in it.
- Real stdio behaviour is not modelled. The model has no buffering or flushing, no short reads from I/O errors, and no failure of `fwrite` or `fclose`. `fclose` only drops the stream.
- Files are a map from path to bytes. `fopen` succeeds exactly for the paths in the map, so a path that opens but then fails to read (a directory) is not modelled.
- `strerror(errno)` is one opaque string for every failed open. Its text comes from the C library, which is not part of this model.
- `exit` becomes a returned record: status, standard output, standard error. The interleaving of writes to the two streams is not recorded.
- `usage` (cathack.c:33-36) is the constant `Usage`, which is written to standard error.
- `opt_factor` is a parameter instead of the global constant 4 (cathack.c:13). `DefaultFactor` records that value, and `DefaultFactorPlaysFile` applies `KeystrokesToPlayFile` to it.
