/**
 * Bytes, newline-delimited lines, and the pure functions that specify what
 * the log file holds: the last `n` elements of a sequence, the split of a
 * byte sequence into lines the way Go's `bufio.ScanLines` splits it, and the
 * bytes produced by writing lines one after another, each followed by "\n".
 */
module Lines {

  newtype byte = x: int | 0 <= x < 256
  type Bytes = seq<byte>

  const NL: byte := 0x0A
  const CR: byte := 0x0D

  function Min(a: nat, b: nat): nat {
    if a < b then a else b
  }

  /** The last `n` elements of `s`, or all of `s` when it has at most `n`. */
  function LastN<T>(s: seq<T>, n: nat): (r: seq<T>)
    ensures |s| <= n ==> r == s
    ensures |s| > n ==> |r| == n && r == s[|s| - n..]
  {
    if |s| <= n then s else s[|s| - n..]
  }

  /** Keeping the last `n` of `x`, then adding `y`, then keeping the last `n`
      again, is the same as keeping the last `n` of `x + y`: the retained
      window slides along the whole history. */
  lemma LastNSlides<T>(x: seq<T>, y: seq<T>, n: nat)
    ensures LastN(LastN(x, n) + y, n) == LastN(x + y, n)
  {
    var k := LastN(x, n);
    var full := x + y;
    var r1 := LastN(k + y, n);
    var r2 := LastN(full, n);
    assert |r1| == |r2|;
    forall i | 0 <= i < |r1|
      ensures r1[i] == r2[i]
    {
      assert r1[i] == (k + y)[|k + y| - |r1| + i];
      assert r2[i] == full[|full| - |r2| + i];
      var j := |k + y| - |r1| + i;
      if j < |k| {
        assert (k + y)[j] == x[|x| - |k| + j];
      } else {
        assert (k + y)[j] == y[j - |k|];
      }
    }
  }

  /** Concatenation is associative (stated for the solver's benefit). */
  lemma ConcatAssoc<T>(a: seq<T>, b: seq<T>, c: seq<T>)
    ensures a + b + c == a + (b + c)
  {
  }

  /** Taking one more element of `s`. */
  lemma TakeSnoc<T>(s: seq<T>, k: nat)
    requires k < |s|
    ensures s[..k + 1] == s[..k] + [s[k]]
  {
  }

  /** `s` split at `k` and put back together. */
  lemma TakeDrop<T>(s: seq<T>, k: nat)
    requires k <= |s|
    ensures s == s[..k] + s[k..]
  {
  }

  /** A non-empty sequence is its front followed by its last element. */
  lemma FrontLast<T>(s: seq<T>)
    requires s != []
    ensures s == s[..|s| - 1] + [s[|s| - 1]]
  {
  }

  /** The pieces of `a + [x] + b` at the position of `x`. */
  lemma AroundElement<T>(a: seq<T>, x: T, b: seq<T>)
    ensures (a + [x] + b)[..|a|] == a
    ensures (a + [x] + b)[|a|] == x
    ensures (a + [x] + b)[|a| + 1..] == b
  {
  }

  /** `s` from `i` on, cut around the element at `k`. */
  lemma AroundIndex<T>(s: seq<T>, i: nat, k: nat)
    requires i <= k < |s|
    ensures s[i..] == s[i..k] + [s[k]] + s[k + 1..]
  {
  }

  /** A prefix of `a + b + c` that ends inside `b`. */
  lemma PrefixAcross<T>(a: seq<T>, b: seq<T>, c: seq<T>, n: nat)
    requires |a| <= n <= |a| + |b|
    ensures (a + b + c)[..n] == a + b[..n - |a|]
  {
    assert (a + b + c)[..n] == (a + b)[..n];
  }

  /** A line as the reader hands it back: without its terminating newline. */
  predicate NoNewline(s: Bytes) {
    NL !in s
  }

  /** No line of `lines` holds a newline. */
  predicate AllNoNewline(lines: seq<Bytes>) {
    forall i :: 0 <= i < |lines| ==> NoNewline(lines[i])
  }

  /** A line that survives a write-then-read round trip unchanged: no newline
      inside and no carriage return at its end. */
  predicate Clean(s: Bytes) {
    NL !in s && (|s| == 0 || s[|s| - 1] != CR)
  }

  /** Every line of `lines` is clean. */
  predicate AllClean(lines: seq<Bytes>) {
    forall i :: 0 <= i < |lines| ==> Clean(lines[i])
  }

  lemma AllCleanConcat(a: seq<Bytes>, b: seq<Bytes>)
    requires AllClean(a) && AllClean(b)
    ensures AllClean(a + b)
  {
  }

  lemma AllCleanLastN(s: seq<Bytes>, n: nat)
    requires AllClean(s)
    ensures AllClean(LastN(s, n))
  {
  }

  /** Index of the first newline in `s` at or after `i`, or `|s|` when there
      is none. */
  function NextNewline(s: Bytes, i: nat): (k: nat)
    requires i <= |s|
    ensures i <= k <= |s|
    ensures k < |s| ==> s[k] == NL
    decreases |s| - i
  {
    if i == |s| || s[i] == NL then i else NextNewline(s, i + 1)
  }

  /** There is no newline between `i` and the next newline. */
  lemma {:induction false} NextNewlineBefore(s: Bytes, i: nat)
    requires i <= |s|
    ensures forall j :: i <= j < NextNewline(s, i) ==> s[j] != NL
    decreases |s| - i
  {
    if i < |s| && s[i] != NL {
      NextNewlineBefore(s, i + 1);
    }
  }

  /** The next newline's index is determined by the facts above. */
  lemma {:induction false} NextNewlineAt(s: Bytes, i: nat, k: nat)
    requires i <= k <= |s| && forall j :: i <= j < k ==> s[j] != NL
    requires k < |s| ==> s[k] == NL
    ensures NextNewline(s, i) == k
    decreases k - i
  {
    if i < k {
      NextNewlineAt(s, i + 1, k);
    }
  }

  /** `bufio.ScanLines` drops one carriage return at the end of each token. */
  function DropCR(s: Bytes): (r: Bytes)
    ensures r <= s
    ensures |s| > 0 && s[|s| - 1] == CR ==> |r| == |s| - 1
    ensures !(|s| > 0 && s[|s| - 1] == CR) ==> r == s
  {
    if |s| > 0 && s[|s| - 1] == CR then s[..|s| - 1] else s
  }

  /** The token that starts at `i`: the bytes up to the next newline (or to
      the end, when there is none), less a trailing carriage return. */
  function TokenAt(s: Bytes, i: nat): (t: Bytes)
    requires i < |s|
    ensures t <= s[i..NextNewline(s, i)]
  {
    DropCR(s[i..NextNewline(s, i)])
  }

  /** Where scanning resumes after the token at `i`: just past its newline,
      or the end of the data when the token is unterminated. */
  function NextStart(s: Bytes, i: nat): (j: nat)
    requires i < |s|
    ensures i < j <= |s|
    ensures j < |s| ==> s[j - 1] == NL
  {
    var k := NextNewline(s, i);
    if k == |s| then |s| else k + 1
  }

  /** The lines a `bufio.Scanner` with `ScanLines` yields for the data from
      index `i` on: one per newline, plus a final unterminated fragment when
      it is not empty. */
  function SplitFrom(s: Bytes, i: nat): (lines: seq<Bytes>)
    requires i <= |s|
    ensures lines == [] <==> i == |s|
    decreases |s| - i
  {
    if i == |s| then [] else [TokenAt(s, i)] + SplitFrom(s, NextStart(s, i))
  }

  /** The lines a `bufio.Scanner` with `ScanLines` yields for `s`. */
  function SplitLines(s: Bytes): (lines: seq<Bytes>)
    ensures lines == [] <==> s == []
  {
    SplitFrom(s, 0)
  }

  /** Scanning from `i` yields the token at `i`, then the lines after it. */
  lemma SplitFromUnfold(s: Bytes, i: nat)
    requires i < |s|
    ensures SplitFrom(s, i) == [TokenAt(s, i)] + SplitFrom(s, NextStart(s, i))
  {
  }

  /** A token holds no newline. */
  lemma TokenNoNewline(s: Bytes, i: nat)
    requires i < |s|
    ensures NoNewline(TokenAt(s, i))
  {
    var t := TokenAt(s, i);
    NextNewlineBefore(s, i);
    assert forall j :: 0 <= j < |t| ==> t[j] == s[i + j];
  }

  /** No line of any scan holds a newline. */
  lemma {:induction false} SplitFromNoNewline(s: Bytes, i: nat)
    requires i <= |s|
    ensures AllNoNewline(SplitFrom(s, i))
    decreases |s| - i
  {
    if i < |s| {
      var rest := SplitFrom(s, NextStart(s, i));
      TokenNoNewline(s, i);
      SplitFromNoNewline(s, NextStart(s, i));
      SplitFromUnfold(s, i);
      assert forall j :: 1 <= j < 1 + |rest| ==> ([TokenAt(s, i)] + rest)[j] == rest[j - 1];
    }
  }

  lemma SplitLinesNoNewline(s: Bytes)
    ensures AllNoNewline(SplitLines(s))
  {
    SplitFromNoNewline(s, 0);
  }

  /** The bytes written by `WriteString(line + "\n")` for each line in turn. */
  function Join(lines: seq<Bytes>): (s: Bytes)
    ensures lines != [] ==> |s| > 0 && s[|s| - 1] == NL
  {
    if lines == [] then [] else Join(lines[..|lines| - 1]) + lines[|lines| - 1] + [NL]
  }

  /** In a prefix of `s` the next newline is the one in `s`, unless the
      prefix ends before it. */
  lemma NextNewlineTake(s: Bytes, n: nat, i: nat)
    requires i <= n <= |s|
    ensures NextNewline(s[..n], i) == Min(NextNewline(s, i), n)
  {
    var p, k := s[..n], NextNewline(s, i);
    NextNewlineBefore(s, i);
    assert forall j :: i <= j < Min(k, n) ==> p[j] == s[j];
    NextNewlineAt(p, i, Min(k, n));
  }

  /** Scanning a prefix of the data yields no more lines than scanning all
      of it: a line cut short is still one line. */
  lemma {:induction false} SplitFromPrefixCount(s: Bytes, n: nat, i: nat)
    requires i <= n <= |s|
    ensures |SplitFrom(s[..n], i)| <= |SplitFrom(s, i)|
    decreases n - i
  {
    if i < n {
      var p := s[..n];
      NextNewlineTake(s, n, i);
      var next := NextStart(p, i);
      assert |SplitFrom(p, i)| == 1 + |SplitFrom(p, next)|;
      assert |SplitFrom(s, i)| == 1 + |SplitFrom(s, NextStart(s, i))|;
      if NextNewline(s, i) < n {
        assert next == NextStart(s, i);
        SplitFromPrefixCount(s, n, next);
      } else {
        assert next == n;
      }
    }
  }

  /** A prefix of `s` splits into no more lines than `s`. */
  lemma SplitPrefixCount(s: Bytes, n: nat)
    requires n <= |s|
    ensures |SplitLines(s[..n])| <= |SplitLines(s)|
  {
    SplitFromPrefixCount(s, n, 0);
  }

  /** Writing `a` and then `b` gives the bytes of writing `a + b`. */
  lemma {:induction false} JoinAppend(a: seq<Bytes>, b: seq<Bytes>)
    ensures Join(a + b) == Join(a) + Join(b)
    decreases |b|
  {
    if b == [] {
      assert a + b == a;
    } else {
      var b', x := b[..|b| - 1], b[|b| - 1];
      FrontLast(b);
      ConcatAssoc(a, b', [x]);
      JoinSnoc(a + b', x);
      JoinSnoc(b', x);
      JoinAppend(a, b');
      ConcatAssoc(Join(a), Join(b'), x);
      ConcatAssoc(Join(a) + Join(b'), x, [NL]);
      ConcatAssoc(Join(a), Join(b') + x, [NL]);
    }
  }

  /** Writing the lines before `cut` and then the rest writes them all. */
  lemma JoinCut(lines: seq<Bytes>, cut: nat)
    requires cut <= |lines|
    ensures Join(lines) == Join(lines[..cut]) + Join(lines[cut..])
  {
    TakeDrop(lines, cut);
    JoinAppend(lines[..cut], lines[cut..]);
  }

  /** One line is written as its bytes and a newline. */
  lemma JoinSingle(line: Bytes)
    ensures Join([line]) == line + [NL]
  {
    assert [line][..0] == [];
    assert Join([line]) == Join([]) + line + [NL];
  }

  /** Writing one more line after `lines`. */
  lemma JoinSnoc(lines: seq<Bytes>, line: Bytes)
    ensures Join(lines + [line]) == Join(lines) + line + [NL]
  {
    assert (lines + [line])[..|lines|] == lines;
  }

  /** Joining from the front: the first line, its newline, then the rest. */
  lemma JoinCons(line: Bytes, rest: seq<Bytes>)
    ensures Join([line] + rest) == line + [NL] + Join(rest)
  {
    JoinAppend([line], rest);
    JoinSingle(line);
  }

  /** The next newline in `p + t` after the prefix `p` is the next one in `t`,
      shifted by `|p|`. */
  lemma NextNewlineShift(p: Bytes, t: Bytes, i: nat)
    requires i <= |t|
    ensures NextNewline(p + t, |p| + i) == |p| + NextNewline(t, i)
  {
    var k := NextNewline(t, i);
    NextNewlineBefore(t, i);
    assert forall j :: |p| + i <= j < |p| + k ==> (p + t)[j] == t[j - |p|];
    NextNewlineAt(p + t, |p| + i, |p| + k);
  }

  /** Scanning `p + t` from past the prefix `p` scans `t`. */
  lemma {:induction false} SplitFromShift(p: Bytes, t: Bytes, i: nat)
    requires i <= |t|
    ensures SplitFrom(p + t, |p| + i) == SplitFrom(t, i)
    decreases |t| - i
  {
    if i < |t| {
      var s := p + t;
      var k := NextNewline(t, i);
      NextNewlineShift(p, t, i);
      assert s[|p| + i..|p| + k] == t[i..k];
      assert TokenAt(s, |p| + i) == TokenAt(t, i);
      assert NextStart(s, |p| + i) == |p| + NextStart(t, i);
      SplitFromShift(p, t, NextStart(t, i));
      SplitFromUnfold(s, |p| + i);
      SplitFromUnfold(t, i);
    }
  }

  /** A line and its newline at the front of the data are scanned as one
      token, less a trailing carriage return. */
  lemma SplitCons(line: Bytes, t: Bytes)
    requires NoNewline(line)
    ensures SplitLines(line + [NL] + t) == [DropCR(line)] + SplitLines(t)
  {
    var p := line + [NL];
    var s := p + t;
    AroundElement(line, NL, t);
    NextNewlineAt(s, 0, |line|);
    assert TokenAt(s, 0) == DropCR(line);
    assert NextStart(s, 0) == |p| + 0;
    SplitFromUnfold(s, 0);
    SplitFromShift(p, t, 0);
  }

  /** `after` holds the lines of `written` in order, each one less a trailing
      carriage return: what reading back written lines yields. */
  predicate ReadsBackAs(after: seq<Bytes>, written: seq<Bytes>) {
    |after| == |written| && forall i :: 0 <= i < |written| ==> after[i] == DropCR(written[i])
  }

  /** Putting one more line in front of a read-back that matches line by line. */
  lemma ConsReadBack(line: Bytes, rest: seq<Bytes>, after: seq<Bytes>)
    requires ReadsBackAs(after, rest)
    ensures ReadsBackAs([DropCR(line)] + after, [line] + rest)
  {
  }

  /** Reading back what was written yields as many lines as were written, and
      each one is the written line less a trailing carriage return. */
  lemma {:induction false} SplitJoin(lines: seq<Bytes>)
    requires AllNoNewline(lines)
    ensures ReadsBackAs(SplitLines(Join(lines)), lines)
    decreases |lines|
  {
    if lines != [] {
      var line, rest := lines[0], lines[1..];
      assert lines == [line] + rest;
      assert NoNewline(line);
      assert AllNoNewline(rest);
      SplitJoin(rest);
      JoinCons(line, rest);
      SplitCons(line, Join(rest));
      ConsReadBack(line, rest, SplitLines(Join(rest)));
    }
  }

  /** Reading back what was written yields as many lines as were written. */
  lemma SplitJoinCount(lines: seq<Bytes>)
    requires AllNoNewline(lines)
    ensures |SplitLines(Join(lines))| == |lines|
  {
    SplitJoin(lines);
  }

  /** A suffix of lines without newlines has none either. */
  lemma AllNoNewlineSuffix(lines: seq<Bytes>, start: nat)
    requires start <= |lines| && AllNoNewline(lines)
    ensures AllNoNewline(lines[start..])
  {
    assert forall i :: 0 <= i < |lines| - start ==> lines[start..][i] == lines[start + i];
  }

  /** Writing the lines of `lines` from index `start` on and reading them
      back yields those lines, each less a trailing carriage return. */
  lemma SuffixReadBack(lines: seq<Bytes>, start: nat)
    requires start <= |lines|
    requires AllNoNewline(lines)
    ensures ReadsBackAs(SplitLines(Join(lines[start..])), lines[start..])
  {
    var kept := lines[start..];
    assert forall i :: 0 <= i < |kept| ==> kept[i] == lines[start + i];
    SplitJoin(kept);
  }

  /** Clean lines survive writing and reading back exactly. */
  lemma SplitJoinClean(lines: seq<Bytes>)
    requires AllClean(lines)
    ensures SplitLines(Join(lines)) == lines
  {
    SplitJoin(lines);
  }

  /** Content free of carriage returns splits into clean lines. */
  lemma {:induction false} SplitFromClean(s: Bytes, i: nat)
    requires CR !in s && i <= |s|
    ensures AllClean(SplitFrom(s, i))
    decreases |s| - i
  {
    if i < |s| {
      TokenClean(s, i);
      SplitFromClean(s, NextStart(s, i));
      SplitFromUnfold(s, i);
      AllCleanConcat([TokenAt(s, i)], SplitFrom(s, NextStart(s, i)));
    }
  }

  /** On content free of carriage returns every token is clean. */
  lemma TokenClean(s: Bytes, i: nat)
    requires CR !in s && i < |s|
    ensures Clean(TokenAt(s, i))
  {
    var t := TokenAt(s, i);
    assert t == s[i..NextNewline(s, i)];
    TokenNoNewline(s, i);
    if |t| > 0 {
      assert t[|t| - 1] == s[i + |t| - 1];
    }
  }

  lemma SplitLinesClean(s: Bytes)
    requires CR !in s
    ensures AllClean(SplitLines(s))
  {
    SplitFromClean(s, 0);
  }

  /** On carriage-return-free content that ends in a newline, every token is
      terminated and comes back unchanged. */
  lemma SplitFromTerminated(s: Bytes, i: nat)
    requires CR !in s && i < |s| && s[|s| - 1] == NL
    ensures NextNewline(s, i) < |s|
    ensures SplitFrom(s, i) == [s[i..NextNewline(s, i)]] + SplitFrom(s, NextNewline(s, i) + 1)
  {
    var k := NextNewline(s, i);
    assert k < |s| by {
      NextNewlineBefore(s, i);
    }
    var line := s[i..k];
    assert TokenAt(s, i) == line by {
      assert |line| > 0 ==> line[|line| - 1] == s[k - 1];
    }
    SplitFromUnfold(s, i);
  }

  /** `s` from `i` on, cut around a newline at `k`. */
  lemma AroundNewline(s: Bytes, i: nat, k: nat)
    requires i <= k < |s| && s[k] == NL
    ensures s[i..] == s[i..k] + [NL] + s[k + 1..]
  {
    AroundIndex(s, i, k);
    assert [s[k]] == [NL];
  }

  /** Content free of carriage returns that ends in a newline is exactly the
      joined lines it splits into, from any token start on. */
  lemma {:induction false} JoinSplitFrom(s: Bytes, i: nat)
    requires CR !in s && i <= |s|
    requires i == |s| || s[|s| - 1] == NL
    ensures Join(SplitFrom(s, i)) == s[i..]
    decreases |s| - i
  {
    if i < |s| {
      var k := NextNewline(s, i);
      SplitFromTerminated(s, i);
      var rest := SplitFrom(s, k + 1);
      JoinSplitFrom(s, k + 1);
      JoinSplitStep(s, i, k, rest);
    } else {
      JoinSplitEnd(s);
    }
  }

  /** The inductive step: the scan from `i` is the line before the newline
      at `k` followed by lines that write what comes after that newline. */
  lemma JoinSplitStep(s: Bytes, i: nat, k: nat, rest: seq<Bytes>)
    requires i <= k < |s| && s[k] == NL
    requires SplitFrom(s, i) == [s[i..k]] + rest
    requires Join(rest) == s[k + 1..]
    ensures Join(SplitFrom(s, i)) == s[i..]
  {
    JoinLineBefore(s, i, k, rest);
  }

  /** Nothing is left to scan at the end of the data. */
  lemma JoinSplitEnd(s: Bytes)
    ensures Join(SplitFrom(s, |s|)) == s[|s|..]
  {
  }

  /** Writing the line before a newline at `k`, then lines that write what
      follows the newline, writes `s` from `i` on. */
  lemma JoinLineBefore(s: Bytes, i: nat, k: nat, rest: seq<Bytes>)
    requires i <= k < |s| && s[k] == NL && Join(rest) == s[k + 1..]
    ensures Join([s[i..k]] + rest) == s[i..]
  {
    JoinCons(s[i..k], rest);
    AroundNewline(s, i, k);
  }

  /** Content free of carriage returns that is empty or ends in a newline is
      exactly the joined lines it splits into. */
  lemma JoinSplit(s: Bytes)
    requires CR !in s
    requires s == [] || s[|s| - 1] == NL
    ensures Join(SplitLines(s)) == s
  {
    JoinSplitFrom(s, 0);
    assert s[0..] == s;
  }
}
