# ringlog: a verified model of bounded-log retention

ringlog reads lines from standard input and appends each one, followed by a
newline, to a log file opened with `O_APPEND`. After every append it enforces
one retention bound. With `-s N` it keeps the last `N` bytes of the file. With
`-l N` it keeps the last `N` lines. This project models that mechanism in
Dafny and proves what each step leaves in the file.

The model has three modules:

- `Lines` (`lines.dfy`) holds the pure vocabulary:
  - bytes;
  - `LastN`, the last `n` elements of a sequence, which serves both as the
    byte suffix and as the last `n` lines;
  - `SplitLines`, the split of a byte sequence into lines as Go's
    `bufio.ScanLines` does it. It splits at each `'\n'`, keeps a non-empty
    unterminated final fragment, and drops one `'\r'` at the end of each token;
  - `Join`, the bytes written by emitting each line followed by `"\n"`.

  The lemmas relate these functions. Reading back written lines gives those
  lines less a trailing `'\r'`. Writing back clean lines gives the original
  bytes. The byte window slides along the whole history.
- `LogFiles` (`logfile.dfy`) holds the file as a class `LogFile` with a
  `content` field and these methods:
  - `Append`, the `WriteString` on the `O_APPEND` handle;
  - `TruncateBySize`, which is `checkAndTruncateBySize`;
  - `TruncateByLines`, which is `checkAndTruncateByLines`. It calls
    `ScanLines`, the scanner loop, and `Rewrite`, the write-back loop.

  Each method is proved against a specification function: `SizeRetained`,
  `LinesRetained` or `WrittenPrefix`. The lemmas about those functions state
  the promised properties: no-op cases, exact suffixes, counts, order,
  bounds and idempotence.
- `RingLog` (`ringlog.dfy`) holds the process:
  - the configuration check, in the form the code has (which `Run` uses) and
    in a corrected form (see "## Findings");
  - the mode dispatch;
  - `Step`, one iteration of the main loop;
  - `Run`, the whole loop over standard input;
  - `Process`, its specification as a fold over the input lines.

  The contract of `Process` and the lemmas about it state:
  - that the loop stops exactly when an append fails, and what a failed
    append leaves;
  - that the bound holds after every line whose check was not abandoned;
  - that in size mode, after at least one line and when every append, read
    and write-back is complete, the file is the last `N` bytes of its
    original content followed by everything written;
  - that in line mode, when every line is clean (no `'\n'` inside, no
    trailing `'\r'`), the original file is free of `'\r'` and empty or
    newline-terminated, and every call succeeds, the file holds exactly the
    last `N` lines of its original lines followed by the lines written;
  - that with no bound every line stays.

Operating-system behaviour enters only as parameters. A parameter can say that
a call fails, that a read hands back fewer bytes than asked for, or that a
write fails after some bytes reached the file. A check that fails before
`Truncate(0)` leaves the file as it was. A write that fails part way leaves a
prefix of what it was writing. A failed append ends the run with exit status 1.
Standard input is given as the bytes it delivers before end-of-stream or a
read error. Both cases end the loop in the same way, with exit status 0.

The model follows the code, including where the program's own description
suggests otherwise:
- The flag help says to use either `-s` or `-l` (main.go:12-13). The code
  accepts both, and then the size check wins (main.go:55-65).
- A write-back that fails after `Truncate(0)` leaves the file emptied or cut
  short. At main.go:114-118 the size check writes its bytes in one call after
  the truncation. At main.go:149-154 the line check writes line by line and
  returns at the first failing write. Nothing restores the dropped content.
- `Run` gates on the test main.go:30 makes, which refuses only bounds that
  are exactly zero. A negative bound is accepted and runs without any bound;
  the corrected gate `Configure` is kept apart as the remedy.

## Model

| member | source | states |
|---|---|---|
| Lines.LastN | main.go:92-101 | the last `n` elements of a sequence: the whole of it when it has at most `n`, otherwise exactly `n` elements ending where it ends |
| Lines.SplitLines | main.go:130-135 | the lines `bufio.ScanLines` yields; empty data, and only empty data, yields no lines |
| Lines.Join | main.go:150-155 | the bytes of writing each line followed by `"\n"`; when there is a line they end in a newline |
| Lines.LastNSlides | main.go:92-115 | keeping the last `n` of `x`, appending `y` and keeping the last `n` again equals keeping the last `n` of `x + y`, so the retained window slides along the whole history |
| Lines.SplitLinesNoNewline | main.go:133-134 | no line the scanner hands back contains a newline |
| Lines.SplitLinesClean | main.go:133-134 | on content without carriage returns every scanned line is clean (no newline, no trailing `'\r'`) |
| Lines.SplitCons | main.go:130-135 | a line and its newline at the front of the data are scanned as one token, less a trailing `'\r'`, followed by the lines of the rest |
| Lines.SplitJoin | main.go:133-134 | writing newline-free lines each followed by `"\n"` and scanning the bytes back yields as many lines, each equal to the written one less a trailing `'\r'` |
| Lines.SplitJoinClean | main.go:150-151 | clean lines that are written and read back come back exactly |
| Lines.JoinSplit | main.go:130-135 | content without carriage returns that is empty or ends in a newline equals the join of the lines it scans into |
| Lines.SplitPrefixCount | main.go:150-154 | a prefix of some bytes, such as a write-back cut short, scans into no more lines than the whole |
| LogFiles.WrittenPrefix | main.go:115-118 | what a write-back leaves is a prefix of the bytes it was writing: all of them when every write succeeds, otherwise exactly the bytes that got through |
| LogFiles.SizeRetained | main.go:73-119 | no change when the file is at most `maxSize` bytes or the check is abandoned; otherwise a prefix of the last `maxSize` bytes, `min(delivered, maxSize)` long when the write-back succeeds; exactly the last `maxSize` bytes after a complete read and write; never more than `maxSize` bytes once the read happened |
| LogFiles.LinesRetained | main.go:121-156 | the content a line check leaves: unchanged when the check is abandoned before the truncation or the file has at most `maxLines` lines |
| LogFiles.SizeIdempotent | main.go:87-89 | a second size check right after one that was not abandoned changes nothing, whatever its own calls do |
| LogFiles.LinesTruncationCount | main.go:137-155 | when the file has more than `maxLines` lines, a successful line check leaves exactly `maxLines` lines |
| LogFiles.LinesTruncationExact | main.go:141-155 | when the check fires, kept line `i` reads back as line `len - maxLines + i` of the original, less a trailing `'\r'` |
| LogFiles.LinesTruncationKeepsLastLines | main.go:133-155 | on content without carriage returns, the lines after a successful check are exactly the last `maxLines` lines before it |
| LogFiles.LinesTruncationDropsOldest | main.go:141-155 | on a file written as clean lines, the file before the check is its dropped oldest lines followed by exactly what the check keeps |
| LogFiles.LinesBound | main.go:121-156 | a line check that is not abandoned leaves at most `maxLines` lines, even when its write-back fails part way |
| LogFiles.LinesIdempotent | main.go:137-139 | a second line check right after one that was not abandoned changes nothing, whatever its own calls do |
| LogFiles.ScanToken | main.go:133-134 | one `scanner.Scan()` yields the bytes up to the next newline, less a trailing `'\r'`, and resumes just after that newline |
| LogFiles.ScanLines | main.go:130-135 | the scanning loop collects exactly `SplitLines` of the file's bytes |
| LogFiles.LogFile.constructor | main.go:35 | the opened file holds what it held before, or nothing when it is created |
| LogFiles.LogFile.Append | main.go:35-52 | the existing content is unchanged and the line plus newline follow it, or only the part of them the write got through; the result reports whether the write succeeded |
| LogFiles.LogFile.TruncateBySize | main.go:73-119 | the new content is `SizeRetained` of the old, so the file is either unchanged or at most `maxSize` bytes |
| LogFiles.LogFile.TruncateByLines | main.go:121-156 | the new content is `LinesRetained` of the old; a check that was not abandoned leaves at most `maxLines` lines |
| LogFiles.LogFile.Rewrite | main.go:143-155 | after truncating to zero and writing the lines one by one, the file holds their join, or the prefix of it that got through before a failed write |
| RingLog.Dispatch | main.go:55-65 | the size check runs exactly when `-s` is positive, the line check exactly when `-s` is not positive and `-l` is, and no check otherwise |
| RingLog.RejectedAsWritten | main.go:30 | the check as written; on non-negative bounds it refuses exactly the runs with no path or no bound to enforce |
| RingLog.NegativeBoundRunsUnbounded | main.go:30 | the check as written accepts `-s -1` or `-l -5` with a path, and such a run enforces no bound at all |
| RingLog.Configure | main.go:30-33 | a configuration is refused exactly when the path is empty or no bound is positive; an accepted one yields a bounding policy and is accepted by the check as written too |
| RingLog.ConfigureAgreesOnNonNegativeBounds | main.go:30 | on non-negative bounds, the corrected check refuses exactly what the written check refuses |
| RingLog.Enforce | main.go:54-65 | the content the selected check leaves; a file already within the bound, or a check abandoned before the truncation, is left alone |
| RingLog.EnforceBound | main.go:54-65 | a check that is not abandoned leaves the file within its policy's bound |
| RingLog.ProcessAbortedStays | main.go:49-52 | after a failed append no later line changes the file |
| RingLog.Next | main.go:45-65 | one iteration stops the loop exactly when it was stopped already or the append fails, and a stop only ever adds bytes to the file |
| RingLog.Process | main.go:44-66 | the file after the loop has handled a sequence of lines; the loop has stopped exactly when one of the appends so far has failed |
| RingLog.ProcessStopsAtFirstFailure | main.go:49-52 | at the first failed append, the file holds what the earlier lines left followed by the part of the failing line that got through |
| RingLog.ProcessBound | main.go:44-66 | after each processed line whose check was not abandoned, the file is within the bound |
| RingLog.ProcessSizeRing | main.go:44-119 | in size mode with complete reads and writes, the file after at least one line is exactly the last `maxSize` bytes of its original content followed by every line written |
| RingLog.ProcessLinesRing | main.go:44-66 | in line mode with clean lines and successful calls, the file holds exactly the join of the last `maxLines` lines of its original lines followed by the lines written |
| RingLog.ProcessLinesReadBack | main.go:121-156 | under the same conditions, reading the file back yields exactly those last `maxLines` lines |
| RingLog.ProcessUnbounded | main.go:44-66 | with no bound, as after `-s -1`, the file is its original content followed by every line successfully appended |
| RingLog.ProcessFromEmpty | main.go:44-66 | starting from an empty file, line mode holds the last `maxLines` lines written |
| RingLog.Step | main.go:45-65 | one iteration appends the line and, if the append succeeds, applies the check the flags select; a failed append returns false with only the partial write added |
| RingLog.Run | main.go:30-70 | a configuration refused by the test at main.go:30, or a failed open, exits 1 and leaves the file alone; otherwise the file ends as `Process` over the scanned standard input under the dispatched policy, and the status is 0 exactly when no append failed |
| RingLog.ScenarioThreeLines | main.go:137-155 | lines `a`, `b`, `c`, `d` under `-l 3` leave `b\nc\nd\n` |
| RingLog.ScenarioTenBytes | main.go:87-115 | a 13-byte line under `-s 10` leaves its last nine bytes and the newline |
| RingLog.ScenarioUnderBound | main.go:137-139 | three lines under `-l 5` are all kept |
| RingLog.ScenarioSecondWriteFails | main.go:49-52 | a write of the second line that fails after one byte stops the run with the first line and one byte of the second in the file |
| RingLog.ScenarioSecondWriteLost | main.go:49-52 | a write of the second line that fails before any byte gets through stops the run with exactly the first line in the file |

## Left out

- Flag parsing and the `int64` and `int` widths of the flags (main.go:12-17). The bounds are unbounded integers given to `Configure`, `Step` and `Run`. `Run` takes the raw flag values, plus whether the log file's `OpenFile` (line 35) fails.
- Verbose and diagnostic output on standard error (main.go:19-28, 46-48, 56-63, and every error message). It changes no state.
- The usage text on standard output (main.go:31). Only the exit status is modelled.
- File handles, paths, permission bits and `defer file.Close()`. The file is the bytes it holds. Each check is assumed to reopen the same file by path, with no other writer.
- The results of `file.Seek(0, 0)`, which the source ignores (main.go:114, 129, 149). The model assumes the seek succeeds.
- Which call failed before `Truncate(0)` in a check (open, stat, seek, read or truncate). All of them leave the file unchanged, so the model has one fault case per check.
- The 64 KiB token limit of `bufio.Scanner`. It would stop the stdin loop early, and it would make a line check see only the lines before an over-long one. The model scans without a limit.
- LogFiles.LogFile.TruncateByLines: does not model a read error part way through the file scan in the line check. The source does not consult `scanner.Err()` there (main.go:133-135). Such an error would make it keep the last lines of only the part it read; the model assumes the whole file is read.
- The allocation `make([]byte, maxSize)` (main.go:100). A very large `-s` can exhaust memory, and the model has no memory limit.
- Concurrent writers to the log file. The source assumes it is the only writer.

## Findings

| source | as written | input that shows it | evidently intended | confidence | as-written member | corrected member |
|---|---|---|---|---|---|---|
| main.go:30 | the run is refused only when both bounds are exactly zero | `ringlog -s -1 -f log`: the check passes, neither `maxSize > 0` nor `maxLines > 0` holds at lines 55-65, and the file grows without bound | refuse unless some bound is positive, so that an accepted run always enforces a bound | not executed | RingLog.NegativeBoundRunsUnbounded | RingLog.Configure |

`Run` keeps the code's gate, so it models the program as it behaves. On `-s -1`
it appends every line with no bound, as `ProcessUnbounded` states. `Configure`
is the corrected gate. It accepts only what the written gate accepts, and every
configuration it accepts selects a bounding policy.
