/**
 * The target log file and the two retention checks run against it.
 *
 * The file is abstracted as the bytes it holds. Appending goes through the
 * handle opened with O_APPEND, so it always lands after the current content,
 * whatever a truncation left there. Each check opens its own handle, reads,
 * truncates the file to zero length and writes back what it keeps.
 */
module LogFiles {
  import opened Lines

  /** How a write-back into the emptied file fares: every write succeeds, or
      a write fails after `written` bytes in all have reached the file. */
  datatype WriteIo = WriteOk | WriteFault(written: nat)

  /** The bytes of `w` that reach the file when it is written as `io` says. */
  function WrittenPrefix(w: Bytes, io: WriteIo): (r: Bytes)
    ensures r <= w
    ensures io.WriteOk? ==> r == w
    ensures io.WriteFault? ==> |r| == Min(io.written, |w|)
  {
    match io
    case WriteOk => w
    case WriteFault(written) => w[..Min(written, |w|)]
  }

  /** What the operating system does during one size check. */
  datatype SizeIo =
      /** Opening, stat, seek, read or truncate fails: the check is abandoned
          before the file has been emptied. */
    | SizeFault
      /** The one `Read` call hands back at most `delivered` bytes, and the
          write-back fares as `write` says. */
    | SizeRead(delivered: nat, write: WriteIo)

  /** The content a size check leaves behind (`checkAndTruncateBySize`). */
  function SizeRetained(c: Bytes, maxSize: nat, io: SizeIo): (r: Bytes)
    ensures |c| <= maxSize || io.SizeFault? ==> r == c
    ensures |c| > maxSize && io.SizeRead? ==> r <= LastN(c, maxSize)
    ensures |c| > maxSize && io.SizeRead? && io.write.WriteOk? ==>
              |r| == Min(io.delivered, maxSize)
    ensures |c| > maxSize && io.SizeRead? && io.write.WriteOk? && io.delivered >= maxSize ==>
              r == LastN(c, maxSize) && |r| == maxSize
    ensures io.SizeRead? ==> |r| <= maxSize
  {
    if |c| <= maxSize then c
    else match io
      case SizeFault => c
      case SizeRead(delivered, write) =>
        var offset := |c| - maxSize;
        WrittenPrefix(c[offset..offset + Min(delivered, maxSize)], write)
  }

  /** A second size check right after one that was not abandoned finds the
      file within the bound and leaves it alone, whatever the second one's
      calls do, even when the first one's write-back failed part way. */
  lemma SizeIdempotent(c: Bytes, maxSize: nat, first: SizeIo, second: SizeIo)
    requires first.SizeRead?
    ensures SizeRetained(SizeRetained(c, maxSize, first), maxSize, second)
         == SizeRetained(c, maxSize, first)
  {
  }

  /** What the operating system does during one line check. */
  datatype LinesIo =
      /** Opening or truncating fails: the check is abandoned before the file
          has been emptied. */
    | LinesFault
      /** The file is read and, when the check fires, the write-back fares as
          `write` says. */
    | LinesRead(write: WriteIo)

  /** A line check whose calls all succeed. */
  const LinesOk: LinesIo := LinesRead(WriteOk)

  /** The content a line check leaves behind (`checkAndTruncateByLines`). */
  function LinesRetained(c: Bytes, maxLines: nat, io: LinesIo): (r: Bytes)
    ensures io.LinesFault? || |SplitLines(c)| <= maxLines ==> r == c
  {
    if io.LinesFault? then c
    else
      var lines := SplitLines(c);
      if |lines| <= maxLines then c
      else WrittenPrefix(Join(lines[|lines| - maxLines..]), io.write)
  }

  /** When a line check fires it writes back the last `maxLines` lines, as far
      as its writes get. */
  lemma LinesRetainedOver(c: Bytes, maxLines: nat, io: LinesIo)
    requires |SplitLines(c)| > maxLines && io.LinesRead?
    ensures LinesRetained(c, maxLines, io)
         == WrittenPrefix(Join(SplitLines(c)[|SplitLines(c)| - maxLines..]), io.write)
  {
  }

  /** The last `maxLines` lines of a file, written back, read back as
      exactly `maxLines` lines. */
  lemma KeptCount(c: Bytes, maxLines: nat)
    requires |SplitLines(c)| > maxLines
    ensures |SplitLines(Join(SplitLines(c)[|SplitLines(c)| - maxLines..]))| == maxLines
  {
    SplitLinesNoNewline(c);
    AllNoNewlineSuffix(SplitLines(c), |SplitLines(c)| - maxLines);
    SplitJoinCount(SplitLines(c)[|SplitLines(c)| - maxLines..]);
  }

  /** When a line check fires it keeps exactly `maxLines` lines. */
  lemma LinesTruncationCount(c: Bytes, maxLines: nat)
    requires |SplitLines(c)| > maxLines
    ensures |SplitLines(LinesRetained(c, maxLines, LinesOk))| == maxLines
  {
    LinesRetainedOver(c, maxLines, LinesOk);
    KeptCount(c, maxLines);
  }

  /** When a line check fires, its kept lines are the last `maxLines` of the
      file in their order: line `i` reads back as line `i` of that suffix,
      less a trailing carriage return. */
  lemma LinesTruncationExact(c: Bytes, maxLines: nat, i: nat)
    requires |SplitLines(c)| > maxLines && i < maxLines
    ensures |SplitLines(LinesRetained(c, maxLines, LinesOk))| == maxLines
    ensures SplitLines(LinesRetained(c, maxLines, LinesOk))[i]
         == DropCR(SplitLines(c)[|SplitLines(c)| - maxLines + i])
  {
    LinesRetainedOver(c, maxLines, LinesOk);
    SplitLinesNoNewline(c);
    SuffixReadBack(SplitLines(c), |SplitLines(c)| - maxLines);
  }

  /** On content without carriage returns the kept lines read back exactly as
      the last `maxLines` lines of the file were. */
  lemma LinesTruncationKeepsLastLines(c: Bytes, maxLines: nat)
    requires CR !in c
    ensures SplitLines(LinesRetained(c, maxLines, LinesOk)) == LastN(SplitLines(c), maxLines)
  {
    var lines := SplitLines(c);
    SplitLinesClean(c);
    if |lines| > maxLines {
      var kept := LastN(lines, maxLines);
      assert AllClean(kept);
      SplitJoinClean(kept);
    }
  }

  /** On a file written as clean lines, a line check that fires only drops
      bytes from the front: the file was its oldest lines followed by exactly
      what the check keeps. */
  lemma LinesTruncationDropsOldest(lines: seq<Bytes>, maxLines: nat)
    requires AllClean(lines) && |lines| > maxLines
    ensures Join(lines) == Join(lines[..|lines| - maxLines]) + LinesRetained(Join(lines), maxLines, LinesOk)
  {
    SplitJoinClean(lines);
    LinesRetainedOver(Join(lines), maxLines, LinesOk);
    JoinCut(lines, |lines| - maxLines);
  }

  /** A line check that was not abandoned leaves at most `maxLines` lines. */
  lemma LinesBound(c: Bytes, maxLines: nat, io: LinesIo)
    requires io.LinesRead?
    ensures |SplitLines(LinesRetained(c, maxLines, io))| <= maxLines
  {
    if |SplitLines(c)| > maxLines {
      LinesRetainedOver(c, maxLines, io);
      KeptCount(c, maxLines);
      WrittenPrefixCount(Join(SplitLines(c)[|SplitLines(c)| - maxLines..]), io.write);
    }
  }

  /** A write-back cut short reads back as no more lines than the whole. */
  lemma WrittenPrefixCount(w: Bytes, io: WriteIo)
    ensures |SplitLines(WrittenPrefix(w, io))| <= |SplitLines(w)|
  {
    if io.WriteFault? {
      SplitPrefixCount(w, Min(io.written, |w|));
    }
  }

  /** A second line check right after one that was not abandoned leaves the
      file alone, whatever happens to the second one, even when the first
      one's write-back failed part way. */
  lemma LinesIdempotent(c: Bytes, maxLines: nat, first: LinesIo, second: LinesIo)
    requires first.LinesRead?
    ensures LinesRetained(LinesRetained(c, maxLines, first), maxLines, second)
         == LinesRetained(c, maxLines, first)
  {
    LinesBound(c, maxLines, first);
  }

  /** One `scanner.Scan()` step of `bufio.ScanLines` on the data from
      `start` on: find the next newline, hand back the token before it less a
      trailing carriage return, and move past the newline. */
  method ScanToken(data: Bytes, start: nat) returns (token: Bytes, next: nat)
    requires start < |data|
    ensures token == TokenAt(data, start) && next == NextStart(data, start)
  {
    var i := start;
    while i < |data| && data[i] != NL
      invariant start <= i <= |data|
      invariant forall j :: start <= j < i ==> data[j] != NL
    {
      i := i + 1;
    }
    NextNewlineAt(data, start, i);
    token := data[start..i];
    if |token| > 0 && token[|token| - 1] == CR {
      token := token[..|token| - 1];
    }
    next := if i < |data| then i + 1 else |data|;
  }

  /** The `for scanner.Scan() { lines = append(lines, scanner.Text()) }` loop
      that reads a whole byte stream into its lines. */
  method ScanLines(data: Bytes) returns (lines: seq<Bytes>)
    ensures lines == SplitLines(data)
  {
    lines := [];
    var start := 0;
    ScanStart(data);
    while start < |data|
      invariant Scanned(lines, start, data)
      decreases |data| - start
    {
      var token, next := ScanToken(data, start);
      ScanStep(lines, start, data);
      lines := lines + [token];
      start := next;
    }
    ScanDone(lines, data);
  }

  /** `lines` are the lines of `data` that come before index `start`. */
  predicate Scanned(lines: seq<Bytes>, start: nat, data: Bytes) {
    start <= |data| && lines + SplitFrom(data, start) == SplitLines(data)
  }

  lemma ScanStart(data: Bytes)
    ensures Scanned([], 0, data)
  {
    assert [] + SplitFrom(data, 0) == SplitLines(data);
  }

  /** One scanned token moves from the unscanned data to the lines. */
  lemma ScanStep(lines: seq<Bytes>, start: nat, data: Bytes)
    requires start < |data| && Scanned(lines, start, data)
    ensures Scanned(lines + [TokenAt(data, start)], NextStart(data, start), data)
  {
    SplitFromUnfold(data, start);
    ConcatAssoc(lines, [TokenAt(data, start)], SplitFrom(data, NextStart(data, start)));
  }

  lemma ScanDone(lines: seq<Bytes>, data: Bytes)
    requires Scanned(lines, |data|, data)
    ensures lines == SplitLines(data)
  {
    assert lines + [] == lines;
  }

  /** Writing back the last `maxLines` scanned lines produces the content a
      line check promises. */
  lemma LinesWritten(c: Bytes, maxLines: nat, io: LinesIo, lines: seq<Bytes>, kept: seq<Bytes>)
    requires io.LinesRead? && lines == SplitLines(c) && |lines| > maxLines
    requires kept == lines[|lines| - maxLines..]
    ensures WrittenPrefix(Join(kept), io.write) == LinesRetained(c, maxLines, io)
  {
    LinesRetainedOver(c, maxLines, io);
  }

  /** Writing one more line extends the bytes written so far. */
  lemma JoinPrefixStep(lines: seq<Bytes>, j: nat)
    requires j < |lines|
    ensures Join(lines[..j + 1]) == Join(lines[..j]) + lines[j] + [NL]
  {
    assert lines[..j + 1][..j] == lines[..j];
  }

  /** A write that fails part way through line `j` leaves the lines before
      it and the part of line `j` that got through: a prefix of the bytes the
      whole write-back would have produced. */
  lemma RewriteStops(lines: seq<Bytes>, j: nat, written: nat)
    requires j < |lines|
    requires |Join(lines[..j])| <= written < |Join(lines[..j])| + |lines[j]| + 1
    ensures Join(lines[..j]) + (lines[j] + [NL])[..written - |Join(lines[..j])|]
         == WrittenPrefix(Join(lines), WriteFault(written))
  {
    var done, s := Join(lines[..j]), lines[j] + [NL];
    JoinPrefixStep(lines, j);
    ConcatAssoc(done, lines[j], [NL]);
    JoinCut(lines, j + 1);
    PrefixAcross(done, s, Join(lines[j + 1..]), written);
  }

  class LogFile {
    /** The bytes the file currently holds. */
    var content: Bytes

    /** The file as found when it is opened (empty when it is created). */
    constructor (existing: Bytes)
      ensures content == existing
    {
      content := existing;
    }

    /** `WriteString(line + "\n")` on the handle opened with O_APPEND: the
        existing bytes stay as they are and the line and a newline follow, or
        as much of them as the write gets through before it fails. */
    method Append(line: Bytes, io: WriteIo) returns (ok: bool)
      modifies this
      ensures ok == io.WriteOk?
      ensures content == old(content) + WrittenPrefix(line + [NL], io)
      ensures content[..|old(content)|] == old(content)
    {
      var s := line + [NL];
      if io.WriteFault? && io.written < |s| {
        content := content + s[..io.written];
        return false;
      }
      content := content + s;
      return io.WriteOk?;
    }

    /** `checkAndTruncateBySize`: when the file is longer than `maxSize`,
        read up to `maxSize` bytes from offset `size - maxSize`, truncate the
        file to zero and write back the bytes that were read. */
    method TruncateBySize(maxSize: nat, io: SizeIo)
      modifies this
      ensures content == SizeRetained(old(content), maxSize, io)
      ensures |content| <= maxSize || content == old(content)
    {
      if |content| <= maxSize {
        return;
      }
      if io.SizeFault? {
        return;
      }
      var offset := |content| - maxSize;
      var bytesRead := Min(io.delivered, maxSize);
      var remaining := content[offset..offset + bytesRead];
      content := [];
      if io.write.WriteFault? && io.write.written < |remaining| {
        content := remaining[..io.write.written];
      } else {
        content := remaining;
      }
    }

    /** `checkAndTruncateByLines`: scan the whole file into lines; when there
        are more than `maxLines`, truncate the file to zero and write the
        last `maxLines` back one by one, each followed by a newline. */
    method TruncateByLines(maxLines: nat, io: LinesIo)
      modifies this
      ensures content == LinesRetained(old(content), maxLines, io)
      ensures io.LinesRead? ==> |SplitLines(content)| <= maxLines
    {
      if io.LinesFault? {
        return;
      }
      var lines := ScanLines(content);
      if |lines| <= maxLines {
        return;
      }
      ghost var original := content;
      var kept := lines[|lines| - maxLines..];
      Rewrite(kept, io.write);
      LinesWritten(original, maxLines, io, lines, kept);
      LinesBound(original, maxLines, io);
    }

    /** Truncate the file to zero length and write `lines` back one by one,
        each followed by a newline, stopping at the first write that fails. */
    method Rewrite(lines: seq<Bytes>, io: WriteIo)
      modifies this
      ensures content == WrittenPrefix(Join(lines), io)
    {
      content := [];
      for j := 0 to |lines|
        invariant content == Join(lines[..j])
        invariant io.WriteFault? ==> |content| <= io.written
      {
        JoinPrefixStep(lines, j);
        var s := lines[j] + [NL];
        if io.WriteFault? && |content| + |s| > io.written {
          RewriteStops(lines, j, io.written);
          content := content + s[..io.written - |content|];
          return;
        }
        content := content + s;
      }
      assert lines[..|lines|] == lines;
    }
  }
}
