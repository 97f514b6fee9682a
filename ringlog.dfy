/**
 * The ringlog process: the configuration check, the choice of one retention
 * policy per run, and the main loop that appends each line read from
 * standard input and then runs the chosen check.
 *
 * Standard input is given as the bytes it delivers before end-of-stream (or
 * before a read error, which ends the loop the same way). What the operating
 * system does to each iteration's calls is given as `env(i)` for the `i`-th
 * line.
 */
module RingLog {
  import opened Lines
  import opened LogFiles

  datatype Option<T> = None | Some(value: T)

  /** The retention policy a run enforces. */
  datatype Policy = BySize(maxBytes: nat) | ByLines(maxLines: nat) | Unbounded

  /** The choice made after every append: the size check whenever `-s` is
      positive (even when `-l` is too), else the line check when `-l` is
      positive, else no check at all. */
  function Dispatch(maxSize: int, maxLines: int): (p: Policy)
    ensures p.BySize? <==> maxSize > 0
    ensures p.ByLines? <==> maxSize <= 0 && maxLines > 0
    ensures p.Unbounded? <==> maxSize <= 0 && maxLines <= 0
    ensures p.BySize? ==> p.maxBytes == maxSize
    ensures p.ByLines? ==> p.maxLines == maxLines
  {
    if maxSize > 0 then BySize(maxSize)
    else if maxLines > 0 then ByLines(maxLines)
    else Unbounded
  }

  /** The configuration check as the source writes it: the run is refused
      when the path is empty or both bounds are zero. On the non-negative
      bounds the flags are meant to take, that refuses exactly the runs with
      no path or with no bound to enforce. */
  predicate RejectedAsWritten(path: string, maxSize: int, maxLines: int): (r: bool)
    ensures maxSize >= 0 && maxLines >= 0 ==>
              (r <==> path == "" || Dispatch(maxSize, maxLines).Unbounded?)
  {
    path == "" || (maxSize == 0 && maxLines == 0)
  }

  /** The check as written lets a negative bound through, and such a run
      then enforces no bound at all. */
  lemma NegativeBoundRunsUnbounded()
    ensures !RejectedAsWritten("log", -1, 0) && Dispatch(-1, 0) == Unbounded
    ensures !RejectedAsWritten("log", 0, -5) && Dispatch(0, -5) == Unbounded
  {
  }

  /** The configuration check as intended: a run needs a path and a policy
      that bounds something; an accepted configuration yields that policy,
      and the check as written accepts it too. */
  function Configure(path: string, maxSize: int, maxLines: int): (r: Option<Policy>)
    ensures r.None? <==> path == "" || Dispatch(maxSize, maxLines).Unbounded?
    ensures r.Some? ==> r.value == Dispatch(maxSize, maxLines) && !r.value.Unbounded?
    ensures r.Some? ==> !RejectedAsWritten(path, maxSize, maxLines)
  {
    if path == "" || (maxSize <= 0 && maxLines <= 0) then None
    else Some(Dispatch(maxSize, maxLines))
  }

  /** On the non-negative bounds the flags are meant to take, the corrected
      check refuses exactly what the check as written refuses. */
  lemma ConfigureAgreesOnNonNegativeBounds(path: string, maxSize: int, maxLines: int)
    requires maxSize >= 0 && maxLines >= 0
    ensures Configure(path, maxSize, maxLines).None? <==> RejectedAsWritten(path, maxSize, maxLines)
  {
  }

  /** What the operating system does during one iteration of the main loop. */
  datatype StepIo = StepIo(append: WriteIo, sizeCheck: SizeIo, lineCheck: LinesIo)

  /** The content the check chosen by `p` leaves behind: a file already
      within the bound, or a check abandoned before it emptied the file,
      is left alone. */
  function Enforce(c: Bytes, p: Policy, io: StepIo): (r: Bytes)
    ensures WithinBound(c, p) || !CheckCompleted(p, io) ==> r == c
  {
    match p
    case BySize(maxBytes) => SizeRetained(c, maxBytes, io.sizeCheck)
    case ByLines(maxLines) => LinesRetained(c, maxLines, io.lineCheck)
    case Unbounded => c
  }

  /** The check got as far as writing back, rather than being abandoned on
      an I/O error before the file was emptied. */
  predicate CheckCompleted(p: Policy, io: StepIo) {
    match p
    case BySize(_) => io.sizeCheck.SizeRead?
    case ByLines(_) => io.lineCheck.LinesRead?
    case Unbounded => true
  }

  /** The content respects the bound of `p`. */
  predicate WithinBound(c: Bytes, p: Policy) {
    match p
    case BySize(maxBytes) => |c| <= maxBytes
    case ByLines(maxLines) => |SplitLines(c)| <= maxLines
    case Unbounded => true
  }

  /** A check that is not abandoned leaves the file within its bound, even
      when its read came back short or its write-back failed part way. */
  lemma EnforceBound(c: Bytes, p: Policy, io: StepIo)
    requires CheckCompleted(p, io)
    ensures WithinBound(Enforce(c, p, io), p)
  {
    match p
    case BySize(_) =>
    case ByLines(maxLines) => LinesBound(c, maxLines, io.lineCheck);
    case Unbounded =>
  }

  /** Where the main loop stands: still running, or stopped by a failed
      append (exit status 1). */
  datatype Outcome = Running(content: Bytes) | Aborted(content: Bytes)

  /** One iteration of the main loop on line `line` with calls behaving as
      `io`: a failed append stops the loop, leaving whatever part of the line
      and its newline the write got through. */
  function Next(o: Outcome, line: Bytes, p: Policy, io: StepIo): (r: Outcome)
    ensures r.Aborted? <==> o.Aborted? || io.append.WriteFault?
    ensures r.Aborted? ==> o.content <= r.content
  {
    match o
    case Aborted(c) => o
    case Running(c) =>
      if io.append.WriteFault? then Aborted(c + WrittenPrefix(line + [NL], io.append))
      else Running(Enforce(c + line + [NL], p, io))
  }

  /** The file after the main loop has handled `lines` under policy `p`,
      starting from content `c0`; line `i` meets `env(i)`. The loop has
      stopped exactly when one of the appends so far has failed. */
  function Process(c0: Bytes, p: Policy, lines: seq<Bytes>, env: nat -> StepIo): (r: Outcome)
    ensures r.Aborted? <==> FailsBefore(env, |lines|)
    decreases |lines|
  {
    if lines == [] then Running(c0)
    else
      var i := |lines| - 1;
      FailsBeforeSnoc(env, i);
      Next(Process(c0, p, lines[..i], env), lines[i], p, env(i))
  }

  /** Handling one more line is one more iteration. */
  lemma ProcessSnoc(c0: Bytes, p: Policy, lines: seq<Bytes>, line: Bytes, env: nat -> StepIo)
    ensures Process(c0, p, lines + [line], env) == Next(Process(c0, p, lines, env), line, p, env(|lines|))
  {
    assert (lines + [line])[..|lines|] == lines;
  }

  /** Once the loop has stopped, later lines change nothing. */
  lemma {:induction false} ProcessAbortedStays(c0: Bytes, p: Policy, xs: seq<Bytes>, ys: seq<Bytes>, env: nat -> StepIo)
    requires Process(c0, p, xs, env).Aborted?
    ensures Process(c0, p, xs + ys, env) == Process(c0, p, xs, env)
    decreases |ys|
  {
    if ys != [] {
      var ys', y := ys[..|ys| - 1], ys[|ys| - 1];
      assert xs + ys == (xs + ys') + [y];
      ProcessAbortedStays(c0, p, xs, ys', env);
      ProcessSnoc(c0, p, xs + ys', y, env);
    } else {
      assert xs + ys == xs;
    }
  }

  /** One of the first `n` appends fails. */
  predicate FailsBefore(env: nat -> StepIo, n: nat) {
    exists k :: 0 <= k < n && env(k).append.WriteFault?
  }

  lemma FailsBeforeSnoc(env: nat -> StepIo, n: nat)
    ensures FailsBefore(env, n + 1) <==> FailsBefore(env, n) || env(n).append.WriteFault?
  {
    if FailsBefore(env, n + 1) && !env(n).append.WriteFault? {
      var k :| 0 <= k < n + 1 && env(k).append.WriteFault?;
      assert k < n;
    }
  }

  /** A failed append stops the loop with the file as the previous lines left
      it, followed by no more of the failing line than its write got
      through. */
  lemma ProcessStopsAtFirstFailure(c0: Bytes, p: Policy, lines: seq<Bytes>, env: nat -> StepIo, k: nat)
    requires k < |lines| && env(k).append.WriteFault?
    requires forall j :: 0 <= j < k ==> env(j).append.WriteOk?
    ensures Process(c0, p, lines[..k], env).Running?
    ensures Process(c0, p, lines, env)
         == Aborted(Process(c0, p, lines[..k], env).content + WrittenPrefix(lines[k] + [NL], env(k).append))
  {
    var prefix, xs, ys := lines[..k], lines[..k + 1], lines[k + 1..];
    assert |prefix| == k;
    assert !FailsBefore(env, k);
    TakeSnoc(lines, k);
    ProcessSnoc(c0, p, prefix, lines[k], env);
    assert Process(c0, p, xs, env)
        == Aborted(Process(c0, p, prefix, env).content + WrittenPrefix(lines[k] + [NL], env(k).append));
    TakeDrop(lines, k + 1);
    ProcessAbortedStays(c0, p, xs, ys, env);
  }

  /** After every processed line whose check was not abandoned, the file is
      within the bound. */
  lemma ProcessBound(c0: Bytes, p: Policy, lines: seq<Bytes>, env: nat -> StepIo)
    requires lines != [] && Process(c0, p, lines, env).Running?
    requires CheckCompleted(p, env(|lines| - 1))
    ensures WithinBound(Process(c0, p, lines, env).content, p)
  {
    var i := |lines| - 1;
    assert lines == lines[..i] + [lines[i]];
    ProcessSnoc(c0, p, lines[..i], lines[i], env);
    var c := Process(c0, p, lines[..i], env).content;
    EnforceBound(c + lines[i] + [NL], p, env(i));
  }

  /** An iteration whose append succeeds and whose size check reads all it
      asks for and writes it all back. */
  predicate FullSizeStep(io: StepIo, maxBytes: nat) {
    io.append.WriteOk? && io.sizeCheck.SizeRead? && io.sizeCheck.delivered >= maxBytes
    && io.sizeCheck.write.WriteOk?
  }

  /** A size iteration with a complete read keeps the last `maxBytes` bytes. */
  lemma FullSizeNext(base: Bytes, line: Bytes, maxBytes: nat, io: StepIo)
    requires FullSizeStep(io, maxBytes)
    ensures Next(Running(base), line, BySize(maxBytes), io) == Running(LastN(base + line + [NL], maxBytes))
  {
  }

  /** The bytes of the whole history after one more line. */
  lemma HistorySnoc(c0: Bytes, prefix: seq<Bytes>, line: Bytes)
    ensures c0 + Join(prefix + [line]) == c0 + Join(prefix) + (line + [NL])
  {
    JoinSnoc(prefix, line);
    ConcatAssoc(c0, Join(prefix), line + [NL]);
  }

  /** The window slides by one appended line. */
  lemma WindowSnoc(x: Bytes, line: Bytes, maxBytes: nat)
    ensures LastN(LastN(x, maxBytes) + line + [NL], maxBytes) == LastN(x + (line + [NL]), maxBytes)
  {
    LastNSlides(x, line + [NL], maxBytes);
    ConcatAssoc(LastN(x, maxBytes), line, [NL]);
  }

  /** The window after one more line, in terms of the whole history. */
  lemma SizeHistoryStep(c0: Bytes, prefix: seq<Bytes>, line: Bytes, maxBytes: nat)
    ensures var base := if prefix == [] then c0 else LastN(c0 + Join(prefix), maxBytes);
            LastN(base + line + [NL], maxBytes) == LastN(c0 + Join(prefix + [line]), maxBytes)
  {
    HistorySnoc(c0, prefix, line);
    if prefix == [] {
      assert c0 + Join(prefix) == c0;
      ConcatAssoc(c0, line, [NL]);
    } else {
      WindowSnoc(c0 + Join(prefix), line, maxBytes);
    }
  }

  /** In size mode, when every read is complete, the file after at least one
      line is exactly the last `maxBytes` bytes of everything it ever held:
      the original content followed by every appended line and newline. */
  lemma {:induction false} ProcessSizeRing(c0: Bytes, maxBytes: nat, lines: seq<Bytes>, env: nat -> StepIo)
    requires lines != []
    requires forall k :: 0 <= k < |lines| ==> FullSizeStep(env(k), maxBytes)
    ensures Process(c0, BySize(maxBytes), lines, env) == Running(LastN(c0 + Join(lines), maxBytes))
    decreases |lines|
  {
    var i := |lines| - 1;
    var prefix, line := lines[..i], lines[i];
    assert lines == prefix + [line];
    var base := if prefix == [] then c0 else LastN(c0 + Join(prefix), maxBytes);
    assert Process(c0, BySize(maxBytes), prefix, env) == Running(base) by {
      if prefix != [] {
        ProcessSizeRing(c0, maxBytes, prefix, env);
      }
    }
    ProcessSnoc(c0, BySize(maxBytes), prefix, line, env);
    FullSizeNext(base, line, maxBytes, env(i));
    SizeHistoryStep(c0, prefix, line, maxBytes);
  }

  /** With no bound, as after `-s -1`, every successful append stays: the
      file is its original content followed by every line written. */
  lemma {:induction false} ProcessUnbounded(c0: Bytes, lines: seq<Bytes>, env: nat -> StepIo)
    requires forall k :: 0 <= k < |lines| ==> env(k).append.WriteOk?
    ensures Process(c0, Unbounded, lines, env) == Running(c0 + Join(lines))
    decreases |lines|
  {
    if lines == [] {
      assert c0 + Join(lines) == c0;
    } else {
      var i := |lines| - 1;
      var prefix, line := lines[..i], lines[i];
      assert lines == prefix + [line];
      ProcessUnbounded(c0, prefix, env);
      ProcessSnoc(c0, Unbounded, prefix, line, env);
      HistorySnoc(c0, prefix, line);
      ConcatAssoc(c0 + Join(prefix), line, [NL]);
    }
  }

  /** A line check on the bytes of clean lines keeps the last `maxLines`. */
  lemma LinesOfJoin(all: seq<Bytes>, maxLines: nat)
    requires AllClean(all)
    ensures LinesRetained(Join(all), maxLines, LinesOk) == Join(LastN(all, maxLines))
  {
    SplitJoinClean(all);
    if |all| > maxLines {
      LinesRetainedOver(Join(all), maxLines, LinesOk);
      assert LastN(all, maxLines) == all[|all| - maxLines..];
    } else {
      assert LastN(all, maxLines) == all;
    }
  }

  /** One line-mode iteration on a file that holds clean lines `kept`. */
  lemma LinesStep(kept: seq<Bytes>, line: Bytes, maxLines: nat)
    requires AllClean(kept) && Clean(line)
    ensures LinesRetained(Join(kept) + line + [NL], maxLines, LinesOk) == Join(LastN(kept + [line], maxLines))
  {
    var all := kept + [line];
    JoinSnoc(kept, line);
    assert AllClean(all);
    LinesOfJoin(all, maxLines);
  }

  /** An iteration whose append succeeds and whose line check runs to its end. */
  predicate FullLinesStep(io: StepIo) {
    io.append.WriteOk? && io.lineCheck == LinesOk
  }

  /** A line iteration that runs to its end on a file of clean lines. */
  lemma FullLinesNext(kept: seq<Bytes>, line: Bytes, maxLines: nat, io: StepIo)
    requires FullLinesStep(io) && AllClean(kept) && Clean(line)
    ensures Next(Running(Join(kept)), line, ByLines(maxLines), io)
         == Running(Join(LastN(kept + [line], maxLines)))
  {
    LinesStep(kept, line, maxLines);
  }

  /** In line mode, with clean lines and a starting file of clean,
      newline-terminated lines, the file after at least one line holds exactly
      the last `maxLines` lines of the whole history, in order. */
  lemma {:induction false} ProcessLinesRing(c0: Bytes, maxLines: nat, lines: seq<Bytes>, env: nat -> StepIo)
    requires lines != []
    requires CR !in c0 && (c0 == [] || c0[|c0| - 1] == NL)
    requires AllClean(lines)
    requires forall k :: 0 <= k < |lines| ==> FullLinesStep(env(k))
    ensures Process(c0, ByLines(maxLines), lines, env)
         == Running(Join(LastN(SplitLines(c0) + lines, maxLines)))
    decreases |lines|
  {
    var init := SplitLines(c0);
    var i := |lines| - 1;
    var prefix, line := lines[..i], lines[i];
    assert lines == prefix + [line];
    var kept := if prefix == [] then init else LastN(init + prefix, maxLines);
    assert AllClean(kept) && Process(c0, ByLines(maxLines), prefix, env) == Running(Join(kept)) by {
      SplitLinesClean(c0);
      if prefix == [] {
        JoinSplit(c0);
      } else {
        assert AllClean(prefix);
        ProcessLinesRing(c0, maxLines, prefix, env);
        AllCleanConcat(init, prefix);
        AllCleanLastN(init + prefix, maxLines);
      }
    }
    ProcessSnoc(c0, ByLines(maxLines), prefix, line, env);
    FullLinesNext(kept, line, maxLines, env(i));
    assert LastN(kept + [line], maxLines) == LastN(init + lines, maxLines) by {
      if prefix == [] {
        assert init + lines == init + [line];
      } else {
        LastNSlides(init + prefix, [line], maxLines);
        ConcatAssoc(init, prefix, [line]);
      }
    }
  }

  /** Under the same conditions, reading the file back yields exactly those
      last `maxLines` lines, byte for byte. */
  lemma ProcessLinesReadBack(c0: Bytes, maxLines: nat, lines: seq<Bytes>, env: nat -> StepIo)
    requires lines != []
    requires CR !in c0 && (c0 == [] || c0[|c0| - 1] == NL)
    requires AllClean(lines)
    requires forall k :: 0 <= k < |lines| ==> FullLinesStep(env(k))
    ensures SplitLines(Process(c0, ByLines(maxLines), lines, env).content)
         == LastN(SplitLines(c0) + lines, maxLines)
  {
    ProcessLinesRing(c0, maxLines, lines, env);
    var history := SplitLines(c0) + lines;
    SplitLinesClean(c0);
    AllCleanConcat(SplitLines(c0), lines);
    AllCleanLastN(history, maxLines);
    SplitJoinClean(LastN(history, maxLines));
  }

  /** The body of the main loop: append the line (a failure is fatal), then
      run the check the flags select. */
  method Step(log: LogFile, line: Bytes, maxSize: int, maxLines: int, io: StepIo) returns (ok: bool)
    modifies log
    ensures ok == io.append.WriteOk?
    ensures !ok ==> log.content == old(log.content) + WrittenPrefix(line + [NL], io.append)
    ensures ok ==> log.content == Enforce(old(log.content) + line + [NL], Dispatch(maxSize, maxLines), io)
  {
    ok := log.Append(line, io.append);
    if !ok {
      return;
    }
    ConcatAssoc(old(log.content), line, [NL]);
    if maxSize > 0 {
      log.TruncateBySize(maxSize, io.sizeCheck);
    } else if maxLines > 0 {
      log.TruncateByLines(maxLines, io.lineCheck);
    }
  }

  /** The whole process on an opened file `log`: check the configuration as
      the source writes it, then read standard input line by line, appending
      and checking after each one. Returns the exit status. A configuration
      that only `Configure` refuses, such as `-s -1`, runs with no bound. */
  method Run(log: LogFile, path: string, maxSize: int, maxLines: int, stdin: Bytes,
             openFails: bool, env: nat -> StepIo) returns (status: int)
    modifies log
    ensures status == 0 || status == 1
    ensures RejectedAsWritten(path, maxSize, maxLines) || openFails ==>
              status == 1 && log.content == old(log.content)
    ensures !RejectedAsWritten(path, maxSize, maxLines) && !openFails ==>
              log.content == Process(old(log.content), Dispatch(maxSize, maxLines), SplitLines(stdin), env).content
    ensures !RejectedAsWritten(path, maxSize, maxLines) && !openFails ==>
              (status == 0 <==> Process(old(log.content), Dispatch(maxSize, maxLines), SplitLines(stdin), env).Running?)
  {
    if RejectedAsWritten(path, maxSize, maxLines) || openFails {
      return 1;
    }
    ghost var c0 := log.content;
    ghost var p := Dispatch(maxSize, maxLines);
    ghost var done: seq<Bytes> := [];
    var start := 0;
    var i := 0;
    ScanStart(stdin);
    while start < |stdin|
      invariant Scanned(done, start, stdin)
      invariant i == |done|
      invariant Process(c0, p, done, env) == Running(log.content)
      decreases |stdin| - start
    {
      var line, next := ScanToken(stdin, start);
      ScanStep(done, start, stdin);
      var ok := Step(log, line, maxSize, maxLines, env(i));
      ProcessSnoc(c0, p, done, line, env);
      done := done + [line];
      start := next;
      if !ok {
        ProcessAbortedFrom(c0, p, done, start, stdin, env);
        return 1;
      }
      i := i + 1;
    }
    ScanDone(done, stdin);
    return 0;
  }

  /** Once aborted, the rest of the input is never processed. */
  lemma ProcessAbortedFrom(c0: Bytes, p: Policy, done: seq<Bytes>, start: nat, stdin: Bytes, env: nat -> StepIo)
    requires Scanned(done, start, stdin) && Process(c0, p, done, env).Aborted?
    ensures Process(c0, p, SplitLines(stdin), env) == Process(c0, p, done, env)
  {
    ProcessAbortedStays(c0, p, done, SplitFrom(stdin, start), env);
  }


  /** Starting from an empty file, line mode keeps the last `maxLines` lines
      written. */
  lemma ProcessFromEmpty(maxLines: nat, lines: seq<Bytes>, env: nat -> StepIo)
    requires lines != [] && AllClean(lines)
    requires forall k :: 0 <= k < |lines| ==> FullLinesStep(env(k))
    ensures Process([], ByLines(maxLines), lines, env) == Running(Join(LastN(lines, maxLines)))
  {
    ProcessLinesRing([], maxLines, lines, env);
    assert SplitLines([]) + lines == lines;
  }

  // The scenarios below tie the model to concrete runs.

  /** Calls that all succeed, each read returning up to 4096 bytes. */
  function Healthy(k: nat): StepIo {
    StepIo(WriteOk, SizeRead(4096, WriteOk), LinesOk)
  }

  /** Like `Healthy`, except that the second append fails after one byte. */
  function SecondAppendFails(k: nat): StepIo {
    StepIo(if k == 1 then WriteFault(1) else WriteOk, SizeRead(4096, WriteOk), LinesOk)
  }

  /** Like `Healthy`, except that the second append fails before any byte
      reaches the file. */
  function SecondAppendLost(k: nat): StepIo {
    StepIo(if k == 1 then WriteFault(0) else WriteOk, SizeRead(4096, WriteOk), LinesOk)
  }

  /** Three lines are written as each line followed by a newline. */
  lemma JoinThree(a: Bytes, b: Bytes, c: Bytes)
    ensures Join([a, b, c]) == a + [NL] + b + [NL] + c + [NL]
  {
    assert [a, b, c] == [a, b] + [c];
    JoinSnoc([a, b], c);
    assert [a, b] == [a] + [b];
    JoinSnoc([a], b);
    JoinSingle(a);
  }

  /** Four clean lines under a three-line bound leave the last three, as in
      "a", "b", "c", "d" leaving "b\nc\nd\n". */
  lemma ScenarioThreeLines(a: Bytes, b: Bytes, c: Bytes, d: Bytes)
    requires Clean(a) && Clean(b) && Clean(c) && Clean(d)
    ensures Process([], ByLines(3), [a, b, c, d], Healthy)
         == Running(b + [NL] + c + [NL] + d + [NL])
  {
    var lines := [a, b, c, d];
    assert AllClean(lines);
    ProcessFromEmpty(3, lines, Healthy);
    assert LastN(lines, 3) == [b, c, d];
    JoinThree(b, c, d);
  }

  /** A 13-byte line, such as "HelloWorldFoo", under a ten-byte bound leaves
      the last ten bytes of the line and its newline ("oWorldFoo\n"). */
  lemma ScenarioTenBytes(hello: Bytes)
    requires |hello| == 13
    ensures Process([], BySize(10), [hello], Healthy) == Running(hello[4..] + [NL])
  {
    ProcessSizeRing([], 10, [hello], Healthy);
    JoinSingle(hello);
    assert [] + Join([hello]) == hello + [NL];
    assert (hello + [NL])[4..] == hello[4..] + [NL];
  }

  /** Three clean lines under a five-line bound are all kept. */
  lemma ScenarioUnderBound(x: Bytes, y: Bytes, z: Bytes)
    requires Clean(x) && Clean(y) && Clean(z)
    ensures Process([], ByLines(5), [x, y, z], Healthy) == Running(x + [NL] + y + [NL] + z + [NL])
  {
    var lines := [x, y, z];
    assert AllClean(lines);
    ProcessFromEmpty(5, lines, Healthy);
    assert LastN(lines, 5) == lines;
    JoinThree(x, y, z);
  }

  /** A write of the second line that fails after one byte stops the run
      with the first line and a torn second line in the file. */
  lemma ScenarioSecondWriteFails(a: Bytes, b: Bytes, maxLines: nat)
    requires Clean(a) && maxLines >= 1 && |b| >= 1
    ensures Process([], ByLines(maxLines), [a, b], SecondAppendFails) == Aborted(a + [NL] + [b[0]])
  {
    var lines := [a, b];
    assert lines[..1] == [a];
    assert Process([], ByLines(maxLines), [a], SecondAppendFails) == Running(a + [NL]) by {
      assert AllClean([a]);
      ProcessFromEmpty(maxLines, [a], SecondAppendFails);
      assert LastN([a], maxLines) == [a];
      JoinSingle(a);
    }
    ProcessStopsAtFirstFailure([], ByLines(maxLines), lines, SecondAppendFails, 1);
    assert WrittenPrefix(b + [NL], WriteFault(1)) == [b[0]];
  }

  /** A write of the second line that fails before any byte gets through
      stops the run with exactly the first line in the file. */
  lemma ScenarioSecondWriteLost(a: Bytes, b: Bytes, maxLines: nat)
    requires Clean(a) && maxLines >= 1
    ensures Process([], ByLines(maxLines), [a, b], SecondAppendLost) == Aborted(a + [NL])
  {
    var lines := [a, b];
    assert lines[..1] == [a];
    assert Process([], ByLines(maxLines), [a], SecondAppendLost) == Running(a + [NL]) by {
      assert AllClean([a]);
      ProcessFromEmpty(maxLines, [a], SecondAppendLost);
      assert LastN([a], maxLines) == [a];
      JoinSingle(a);
    }
    ProcessStopsAtFirstFailure([], ByLines(maxLines), lines, SecondAppendLost, 1);
    assert WrittenPrefix(b + [NL], WriteFault(0)) == [];
  }
}
