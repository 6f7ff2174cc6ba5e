/** The lazy index of line ranges (src/lexer-source-line-finder.cc): a file is scanned in chunks, as
    far as queries need it, and the answers are those of splitting the whole file at once. */
module LineFinder {
  import opened Util

  datatype Range = Range(start: int, end: int)

  // ----- splitting a whole file -----

  /** A carriage return at the end of the text. */
  predicate EndsInCr(s: string) { s != [] && Last(s) == '\r' }

  /** Where the line after the last newline begins. */
  function NextStart(s: string): (n: nat)
    ensures n <= |s|
  {
    if s == [] then 0 else if Last(s) == '\n' then |s| else NextStart(s[..|s| - 1])
  }

  /** The lines that end in a newline, without it and without a carriage return before it. */
  function Complete(s: string): seq<Range> {
    if s == [] then []
    else
      var t := s[..|s| - 1];
      if Last(s) == '\n' then Complete(t) + [Range(NextStart(t), |t| - if EndsInCr(t) then 1 else 0)] else Complete(t)
  }

  /** All lines: the last one ends with the file. */
  function Lines(s: string): (r: seq<Range>)
    ensures r != []
  {
    Complete(s) + [Range(NextStart(s), |s|)]
  }

  /** What separates two lines: "\r\n", or "\n" that is not behind a carriage return. */
  predicate Separated(s: string, r: Range, next: int) {
    && 0 <= r.start <= r.end < next <= |s| && s[next - 1] == '\n'
    && (next == r.end + 1 ==> !EndsInCr(s[r.start..r.end]))
    && (next == r.end + 2 ==> s[r.end] == '\r')
    && next <= r.end + 2
  }

  predicate OneLine(s: string, r: Range) {
    0 <= r.start <= r.end <= |s| && '\n' !in s[r.start..r.end]
  }

  /** The ranges are the lines of the file, one behind the other, with nothing but separators
      between them. */
  predicate Splits(s: string, from: nat, ranges: seq<Range>) {
    && ranges != [] && ranges[0].start == from && Last(ranges).end == |s|
    && (forall i | 0 <= i < |ranges| :: OneLine(s, ranges[i]))
    && forall i | 0 <= i < |ranges| - 1 :: Separated(s, ranges[i], ranges[i + 1].start)
  }

  lemma {:induction false} NoNewlineSince(s: string)
    ensures '\n' !in s[NextStart(s)..]
  {
    if s != [] && Last(s) != '\n' {
      var t := s[..|s| - 1];
      NoNewlineSince(t);
      assert s[NextStart(s)..] == t[NextStart(t)..] + [Last(s)];
    }
  }

  lemma {:induction false} CompleteGrows(s: string, n: nat)
    requires n <= |s|
    ensures Complete(s[..n]) <= Complete(s)
    decreases |s| - n
  {
    if n == |s| {
      assert s[..n] == s;
    } else {
      CompleteGrows(s, n + 1);
      assert s[..n + 1][..n] == s[..n];
    }
  }

  lemma StillSeparated(t: string, s: string, r: Range, next: int)
    requires t <= s && Separated(t, r, next)
    ensures Separated(s, r, next)
  {
    assert s[r.start..r.end] == t[r.start..r.end];
  }

  lemma StillOneLine(t: string, s: string, r: Range)
    requires t <= s && OneLine(t, r)
    ensures OneLine(s, r)
  {
    assert s[r.start..r.end] == t[r.start..r.end];
  }

  /** The complete lines of a text, from its beginning to `NextStart`. */
  predicate Chain(s: string, c: seq<Range>, next: int) {
    && (forall i | 0 <= i < |c| :: OneLine(s, c[i]))
    && (if c == [] then next == 0 else c[0].start == 0 && Separated(s, Last(c), next))
    && forall i | 0 <= i < |c| - 1 :: Separated(s, c[i], c[i + 1].start)
  }

  lemma StillChain(t: string, s: string, c: seq<Range>, next: int)
    requires t <= s && Chain(t, c, next)
    ensures Chain(s, c, next)
  {
    hide OneLine, Separated;
    forall i | 0 <= i < |c| ensures OneLine(s, c[i]) { StillOneLine(t, s, c[i]); }
    forall i | 0 <= i < |c| - 1
      ensures Separated(s, c[i], c[i + 1].start)
    {
      StillSeparated(t, s, c[i], c[i + 1].start);
    }
    if c != [] { StillSeparated(t, s, Last(c), next); }
  }

  lemma {:induction false} CompleteAre(s: string)
    ensures Chain(s, Complete(s), NextStart(s))
  {
    hide OneLine, Separated;
    if s != [] {
      var t := s[..|s| - 1];
      CompleteAre(t);
      StillChain(t, s, Complete(t), NextStart(t));
      if Last(s) == '\n' { LastLine(s, t); }
    }
  }

  /** The line that the newline at the end of `s` completes. */
  lemma {:induction false} LastLine(s: string, t: string)
    requires s == t + ['\n']
    ensures var r := Range(NextStart(t), |t| - if EndsInCr(t) then 1 else 0);
            OneLine(s, r) && Separated(s, r, |s|)
  {
    NoNewlineSince(t);
    if EndsInCr(t) && NextStart(t) == |t| { StartAfterNewline(t); }
    var r := Range(NextStart(t), |t| - if EndsInCr(t) then 1 else 0);
    assert s[r.start..r.end] == t[r.start..][..r.end - r.start];
  }

  lemma StartAfterNewline(t: string)
    requires t != [] && NextStart(t) == |t|
    ensures Last(t) == '\n'
  {}

  /** `Lines` splits the file. */
  lemma LinesSplit(s: string)
    ensures Splits(s, 0, Lines(s))
  {
    CompleteAre(s);
    NoNewlineSince(s);
    var c, r := Complete(s), Range(NextStart(s), |s|);
    assert s[r.start..r.end] == s[NextStart(s)..];
    forall i | 0 <= i < |Lines(s)| - 1 ensures Separated(s, Lines(s)[i], Lines(s)[i + 1].start) {
      if i < |c| - 1 { assert Lines(s)[i + 1] == c[i + 1]; }
    }
  }

  /** Nothing else does. */
  lemma {:induction false} SplitsUnique(s: string, from: nat, a: seq<Range>, b: seq<Range>)
    requires Splits(s, from, a) && Splits(s, from, b)
    ensures a == b
    decreases |a|
  {
    SameFirst(s, a, b);
    if |a| > 1 {
      assert Separated(s, a[0], a[1].start) && Separated(s, b[0], b[1].start);
      TailSplits(s, from, a);
      TailSplits(s, from, b);
      SplitsUnique(s, a[1].start, a[1..], b[1..]);
      assert a == [a[0]] + a[1..] && b == [b[0]] + b[1..];
    } else {
      assert a == [a[0]] && b == [b[0]];
    }
  }

  lemma TailSplits(s: string, from: nat, a: seq<Range>)
    requires Splits(s, from, a) && |a| > 1
    ensures a[1].start >= 0 && Splits(s, a[1].start, a[1..])
  {
    hide OneLine, Separated;
    assert OneLine(s, a[1]);
    StartOf(s, a[1]);
    forall i | 0 <= i < |a[1..]| - 1 ensures Separated(s, a[1..][i], a[1..][i + 1].start) {
      assert Separated(s, a[i + 1], a[i + 1 + 1].start);
    }
  }

  lemma StartOf(s: string, r: Range)
    requires OneLine(s, r)
    ensures r.start >= 0
  {}

  /** Where the first line's newline is, if there is one. */
  lemma NewlineAt(s: string, a: seq<Range>)
    requires a != [] && a[0].start >= 0 && Splits(s, a[0].start, a) && |a| > 1
    ensures a[0].start < a[1].start <= |s| && s[a[1].start - 1] == '\n' && '\n' !in s[a[0].start..a[1].start - 1]
  {
    var n := a[1].start;
    assert Separated(s, a[0], n) && OneLine(s, a[0]);
    forall i | a[0].start <= i < n - 1 ensures s[i] != '\n' {
      if i < a[0].end { assert s[i] == s[a[0].start..a[0].end][i - a[0].start]; }
    }
  }

  lemma SameFirst(s: string, a: seq<Range>, b: seq<Range>)
    requires a != [] && b != [] && a[0].start == b[0].start >= 0 && Splits(s, a[0].start, a) && Splits(s, a[0].start, b)
    ensures a[0] == b[0] && (|a| > 1 <==> |b| > 1) && (|a| > 1 ==> a[1].start == b[1].start)
  {
    if |a| > 1 { NewlineAt(s, a); }
    if |b| > 1 { NewlineAt(s, b); }
    assert OneLine(s, a[0]) && OneLine(s, b[0]);
    if |a| > 1 && |b| > 1 {
      SameNewline(s, a[0].start, a[1].start - 1, b[1].start - 1);
      assert Separated(s, a[0], a[1].start) && Separated(s, b[0], b[1].start);
      SameEnd(s, a[0], b[0], a[1].start);
      SameEnd(s, b[0], a[0], a[1].start);
    } else if |a| > 1 {
      NotIn(s, b[0].start, b[0].end);
    } else if |b| > 1 {
      NotIn(s, a[0].start, a[0].end);
    }
  }

  lemma NotIn(s: string, from: nat, to: nat)
    requires from <= to <= |s| && '\n' !in s[from..to]
    ensures forall k | from <= k < to :: s[k] != '\n'
  {
    forall k | from <= k < to ensures s[k] != '\n' { assert s[k] == s[from..to][k - from]; }
  }

  lemma SameNewline(s: string, from: nat, i: nat, j: nat)
    requires from <= i < |s| && from <= j < |s| && s[i] == s[j] == '\n' && '\n' !in s[from..i] && '\n' !in s[from..j]
    ensures i == j
  {
    NotIn(s, from, i);
    NotIn(s, from, j);
  }

  lemma SameEnd(s: string, r: Range, q: Range, next: int)
    requires Separated(s, r, next) && Separated(s, q, next) && r.start == q.start
    ensures r.end <= q.end
  {
    assert r.end > r.start ==> Last(s[r.start..r.end]) == s[r.end - 1];
  }

  // ----- the index -----

  class LexerSourceLineFinder {
    const file: string
    const bufferSize: nat
    var readOffset: nat
    var lineRanges: seq<Range>
    var nextLineStart: nat
    var lastCr: bool
    var eof: bool

    constructor (file: string, bufferSize: nat)
      requires bufferSize > 0
      ensures this.file == file && Valid()
    {
      this.file, this.bufferSize := file, bufferSize;
      readOffset, nextLineStart, lastCr, eof := 0, 0, false, false;
      lineRanges := [Range(0, 0)];
    }

    /** The index holds the lines of what was read; entry 0 is not used. */
    ghost predicate Valid()
      reads this
    {
      && bufferSize > 0 && readOffset <= |file| && (eof ==> readOffset == |file|)
      && nextLineStart == NextStart(file[..readOffset]) && lastCr == EndsInCr(file[..readOffset])
      && lineRanges == [Range(0, 0)] + if eof then Lines(file) else Complete(file[..readOffset])
    }

    predicate IsLineCached(line: int)
      reads this`lineRanges
    {
      0 <= line < |lineRanges|
    }

    /** What Fill leaves in the buffer. */
    method Fill() returns (buffer: string)
      requires readOffset <= |file|
      modifies this`readOffset
      ensures readOffset == old(readOffset) + |buffer| <= |file| && buffer == file[old(readOffset)..readOffset]
      ensures |buffer| <= bufferSize && (|buffer| < bufferSize ==> readOffset == |file|)
    {
      var readSize := if bufferSize < |file| - readOffset then bufferSize else |file| - readOffset;
      buffer := file[readOffset..readOffset + readSize];
      readOffset := readOffset + readSize;
    }

    /** The scan of a chunk, a byte at a time; a carriage return may be the last byte of the chunk
        before. */
    method Scan(bufferFileOffset: nat, buffer: string)
      requires bufferFileOffset + |buffer| <= |file| && buffer == file[bufferFileOffset..bufferFileOffset + |buffer|]
      requires nextLineStart == NextStart(file[..bufferFileOffset]) && lastCr == EndsInCr(file[..bufferFileOffset])
      requires lineRanges == [Range(0, 0)] + Complete(file[..bufferFileOffset])
      modifies this`lineRanges, this`nextLineStart, this`lastCr
      ensures var read := file[..bufferFileOffset + |buffer|];
              && nextLineStart == NextStart(read) && lastCr == EndsInCr(read)
              && lineRanges == [Range(0, 0)] + Complete(read)
    {
      for i := 0 to |buffer|
        invariant nextLineStart == NextStart(file[..bufferFileOffset + i])
                  && lastCr == EndsInCr(file[..bufferFileOffset + i])
        invariant lineRanges == [Range(0, 0)] + Complete(file[..bufferFileOffset + i])
      {
        ghost var read := file[..bufferFileOffset + i + 1];
        assert read[..|read| - 1] == file[..bufferFileOffset + i] && Last(read) == buffer[i];
        if buffer[i] == '\n' {
          var lineOffset := bufferFileOffset + i - if lastCr then 1 else 0;
          lineRanges := lineRanges + [Range(nextLineStart, lineOffset)];
          nextLineStart := lineOffset + (if lastCr then 1 else 0) + 1;
        }
        lastCr := buffer[i] == '\r';
      }
    }

    /** The range of a line, or nothing if the file has no such line: exactly as if the whole file
        had been split at once, whatever was asked before and however large the chunks are. */
    method GetLineOffsets(findLine: int) returns (range: Option<Range>)
      requires Valid()
      modifies this
      ensures Valid()
      ensures range == if findLine == 0 then Some(Range(0, 0))
                       else if 1 <= findLine <= |Lines(file)| then Some(Lines(file)[findLine - 1])
                       else None
    {
      hide NextStart, Complete, EndsInCr;
      while !IsLineCached(findLine) && !eof
        invariant Valid()
        decreases |file| - readOffset, if eof then 0 else 1
      {
        var bufferFileOffset := readOffset;
        var buffer := Fill();
        if |buffer| < bufferSize {
          eof := true;
        }
        Scan(bufferFileOffset, buffer);
        if eof {
          lineRanges := lineRanges + [Range(nextLineStart, bufferFileOffset + |buffer|)];
          assert file[..readOffset] == file;
        }
      }
      CompleteGrows(file, readOffset);
      range := if IsLineCached(findLine) then Some(lineRanges[findLine]) else None;
    }
  }

  // ----- the part of a long line that is shown -----

  /** ClampSourceLineOffsets: `maxLength` characters around the columns of interest. */
  function Clamp(line: Range, first: int, last: int, maxLength: nat): Range {
    if line.end - line.start <= maxLength then line
    else
      var centerOn := if last - first > maxLength then first - 1 else (first + last) / 2 - 1;
      var start := line.start + if centerOn > maxLength / 2 then centerOn - maxLength / 2 else 0;
      var start' := if start < line.end - maxLength then start else line.end - maxLength;
      Range(start', start' + maxLength)
  }

  /** What is shown lies within the line, is as long as allowed, and shows all the columns if they
      fit, and the first of them if they do not. */
  lemma ClampShows(line: Range, first: int, last: int, maxLength: nat)
    requires 0 <= line.start <= line.end && 1 <= first <= last <= line.end - line.start + 1 && maxLength > 0
    ensures var c := Clamp(line, first, last, maxLength);
            && line.start <= c.start <= c.end <= line.end
            && c.end - c.start == (if line.end - line.start <= maxLength then line.end - line.start else maxLength)
            && c.start <= line.start + first - 1
            && (if last - first <= maxLength then line.start + last - 1 <= c.end else line.start + first - 1 < c.end)
  {}

  function Distance(a: int, b: int): nat { if a < b then b - a else a - b }

  /** Of all parts of a long line that have the allowed length, the one that is shown has its middle nearest to
      the middle of the columns of interest, or to the first of them if they do not fit. */
  lemma ClampCentres(line: Range, first: int, last: int, maxLength: nat, other: int)
    requires 0 <= line.start <= line.end && 1 <= first <= last <= line.end - line.start + 1 && maxLength > 0
    requires maxLength < line.end - line.start && line.start <= other && other + maxLength <= line.end
    ensures var c := Clamp(line, first, last, maxLength);
            var middle := line.start + (if last - first <= maxLength then (first - 1 + last - 1) / 2 else first - 1);
            Distance(c.start + maxLength / 2, middle) <= Distance(other + maxLength / 2, middle)
  {}
}
