/** The sliding-buffer line search of grep (syscalls/ece391grep.c, syscalls/ece391support.c). */
module Grep {
  import opened Common
  import opened CStrings
  import opened Streams

  const BUFSIZE := 1024
  const MAX_LINE := 1023

  // ---------------------------------------------------------------- the simple search

  function FirstNewline(s: seq<byte>): (n: nat)
    ensures n <= |s|
    ensures n < |s| ==> s[n] == NEWLINE
    ensures NEWLINE !in s[..n]
  {
    if s == [] || s[0] == NEWLINE then 0 else 1 + FirstNewline(s[1..])
  }

  /** The lines of a text; what follows its last newline counts as a line. */
  function Lines(s: seq<byte>): seq<seq<byte>>
    decreases |s|
  {
    var n := FirstNewline(s);
    if n == |s| then [s] else [s[..n]] + Lines(s[n + 1..])
  }

  predicate OccursAt(pattern: seq<byte>, line: seq<byte>, k: int) {
    0 <= k <= |line| - |pattern| && line[k..k + |pattern|] == pattern
  }

  predicate Occurs(pattern: seq<byte>, line: seq<byte>) {
    pattern != [] && exists k :: 0 <= k < |line| && OccursAt(pattern, line, k)
  }

  /** The lines that contain the pattern, in order. */
  function Selected(pattern: seq<byte>, lines: seq<seq<byte>>): seq<seq<byte>> {
    if lines == [] then []
    else (if Occurs(pattern, lines[0]) then [lines[0]] else []) + Selected(pattern, lines[1..])
  }

  /** A line as printed: up to a NUL. */
  function Printed(line: seq<byte>): seq<byte> {
    TextOf(line, |line|)
  }

  function PrintedLines(lines: seq<seq<byte>>): seq<seq<byte>> {
    if lines == [] then [] else [Printed(lines[0])] + PrintedLines(lines[1..])
  }

  /** The reference: print the lines that contain the pattern. */
  function Search(pattern: seq<byte>, text: seq<byte>): seq<seq<byte>> {
    PrintedLines(Selected(pattern, Lines(text)))
  }

  function SearchLine(pattern: seq<byte>, line: seq<byte>): seq<seq<byte>> {
    if Occurs(pattern, line) then [Printed(line)] else []
  }

  /** The first comparison of the search takes the pattern's byte as a signed `char` and the line's as an
      unsigned one, so that no byte of a line equals a first byte of 128 or more. */
  function CharValue(b: byte): int {
    if b < 128 then b else b - 256
  }

  /** What the program prints of a text, and of a line. */
  function Prints(pattern: seq<byte>, text: seq<byte>): seq<seq<byte>>
    requires pattern != []
  {
    if pattern[0] < 128 then Search(pattern, text) else []
  }

  function PrintsLine(pattern: seq<byte>, line: seq<byte>): seq<seq<byte>>
    requires pattern != []
  {
    if pattern[0] < 128 then SearchLine(pattern, line) else []
  }

  /** No line is longer than the buffer can hold together with its newline. */
  predicate ShortLines(text: seq<byte>) {
    forall i :: 0 <= i < |Lines(text)| ==> |Lines(text)[i]| <= MAX_LINE
  }

  lemma {:induction false} NewlineAt(line: seq<byte>, rest: seq<byte>)
    requires NEWLINE !in line
    ensures FirstNewline(line + [NEWLINE] + rest) == |line|
  {
    var s := line + [NEWLINE] + rest;
    if line != [] {
      assert line[0] != NEWLINE;
      assert s[1..] == line[1..] + [NEWLINE] + rest;
      NewlineAt(line[1..], rest);
    }
  }

  lemma {:induction false} NoNewline(line: seq<byte>)
    requires NEWLINE !in line
    ensures FirstNewline(line) == |line|
  {
    if line != [] {
      assert line[0] != NEWLINE;
      NoNewline(line[1..]);
    }
  }

  lemma SelectedPeels(pattern: seq<byte>, lines: seq<seq<byte>>)
    requires lines != []
    ensures PrintedLines(Selected(pattern, lines))
      == SearchLine(pattern, lines[0]) + PrintedLines(Selected(pattern, lines[1..]))
  {
    var rest := Selected(pattern, lines[1..]);
    assert ([lines[0]] + rest)[1..] == rest && [] + rest == rest;
    assert [] + PrintedLines(rest) == PrintedLines(rest);
  }

  /** Searching a text is searching its first line and then the rest. */
  lemma SearchPeels(pattern: seq<byte>, line: seq<byte>, rest: seq<byte>)
    requires NEWLINE !in line
    ensures Search(pattern, line + [NEWLINE] + rest) == SearchLine(pattern, line) + Search(pattern, rest)
    ensures ShortLines(line + [NEWLINE] + rest) ==> |line| <= MAX_LINE && ShortLines(rest)
  {
    var s := line + [NEWLINE] + rest;
    NewlineAt(line, rest);
    assert s[..|line|] == line && s[|line| + 1..] == rest;
    var lines := Lines(s);
    assert lines == [line] + Lines(rest);
    assert lines[0] == line && lines[1..] == Lines(rest);
    SelectedPeels(pattern, lines);
    if ShortLines(s) {
      forall i | 0 <= i < |Lines(rest)| ensures |Lines(rest)[i]| <= MAX_LINE {
        assert lines[i + 1] == Lines(rest)[i];
      }
    }
  }

  lemma SearchLast(pattern: seq<byte>, line: seq<byte>)
    requires NEWLINE !in line
    ensures Search(pattern, line) == SearchLine(pattern, line)
    ensures ShortLines(line) ==> |line| <= MAX_LINE
  {
    NoNewline(line);
    assert Lines(line) == [line];
    assert [line][1..] == [];
    SelectedPeels(pattern, [line]);
    if ShortLines(line) {
      assert |Lines(line)[0]| <= MAX_LINE;
    }
  }

  lemma SearchNothing(pattern: seq<byte>)
    ensures Search(pattern, []) == []
  {
    SearchLast(pattern, []);
  }

  // ---------------------------------------------------------------- texts and their padding

  lemma OccursBeforeNul(pattern: seq<byte>, line: seq<byte>)
    requires IsText(pattern)
    ensures Occurs(pattern, line + [NUL]) <==> Occurs(pattern, line)
  {
    var padded := line + [NUL];
    if pattern != [] {
      forall k | 0 <= k < |padded| ensures OccursAt(pattern, padded, k) <==> k < |line| && OccursAt(pattern, line, k) {
        OccursAtBeforeNul(pattern, line, k);
      }
    }
  }

  lemma OccursAtBeforeNul(pattern: seq<byte>, line: seq<byte>, k: nat)
    requires IsText(pattern) && pattern != [] && k <= |line|
    ensures OccursAt(pattern, line + [NUL], k) <==> k < |line| && OccursAt(pattern, line, k)
  {
    var padded := line + [NUL];
    if k + |pattern| == |padded| {
      assert padded[k..k + |pattern|][|pattern| - 1] == NUL;
      assert pattern[|pattern| - 1] in pattern;
    } else if k + |pattern| < |padded| {
      assert padded[k..k + |pattern|] == line[k..k + |pattern|];
    }
  }

  lemma PrintedText(line: seq<byte>)
    requires IsText(line)
    ensures Printed(line) == line && Printed(line + [NUL]) == line
  {
    TextOfPadded(line, [], |line|);
    assert line + [] == line;
    TextOfPadded(line, [NUL], |line| + 1);
  }

  lemma {:induction false} NewlineBeforeNul(text: seq<byte>)
    ensures FirstNewline(text + [NUL]) == if FirstNewline(text) < |text| then FirstNewline(text) else |text| + 1
  {
    if text != [] && text[0] != NEWLINE {
      assert (text + [NUL])[1..] == text[1..] + [NUL];
      NewlineBeforeNul(text[1..]);
    }
  }

  lemma SelectedSplits(pattern: seq<byte>, text: seq<byte>)
    ensures var n := FirstNewline(text);
      Selected(pattern, Lines(text)) == (if Occurs(pattern, text[..n]) then [text[..n]] else [])
        + if n < |text| then Selected(pattern, Lines(text[n + 1..])) else []
  {
    var n := FirstNewline(text);
    assert text[..n] == text || n < |text|;
    assert Lines(text)[1..] == if n < |text| then Lines(text[n + 1..]) else [];
  }

  lemma TextLine(pattern: seq<byte>, line: seq<byte>)
    requires IsText(pattern) && IsText(line)
    ensures SearchLine(pattern, line) == if Occurs(pattern, line) then [line] else []
    ensures SearchLine(pattern, line + [NUL]) == SearchLine(pattern, line)
  {
    OccursBeforeNul(pattern, line);
    PrintedText(line);
  }

  /** For a text the reference prints the matching lines themselves. */
  lemma {:induction false} SearchOfText(pattern: seq<byte>, text: seq<byte>)
    requires IsText(pattern) && IsText(text)
    ensures Search(pattern, text) == Selected(pattern, Lines(text))
    decreases |text|
  {
    hide Selected, Search, Lines;
    var n := FirstNewline(text);
    TextLine(pattern, text[..n]);
    SelectedSplits(pattern, text);
    if n < |text| {
      assert text == text[..n] + [NEWLINE] + text[n + 1..];
      SearchPeels(pattern, text[..n], text[n + 1..]);
      SearchOfText(pattern, text[n + 1..]);
    } else {
      assert text[..n] == text;
      SearchLast(pattern, text);
    }
  }

  /** The pattern stands somewhere in the line. */
  ghost predicate Contains(line: seq<byte>, pattern: seq<byte>) {
    exists a, b :: line == a + pattern + b
  }

  lemma OccursIffContains(pattern: seq<byte>, line: seq<byte>)
    requires pattern != []
    ensures Occurs(pattern, line) <==> Contains(line, pattern)
  {
    if k :| 0 <= k < |line| && OccursAt(pattern, line, k) {
      assert line == line[..k] + pattern + line[k + |pattern|..];
    }
    if a, b :| line == a + pattern + b {
      assert line[|a|..|a| + |pattern|] == pattern;
      assert OccursAt(pattern, line, |a|);
    }
  }

  /** A line is printed exactly when the pattern stands somewhere in it. */
  lemma LineFoundIff(pattern: seq<byte>, line: seq<byte>)
    requires IsText(pattern) && pattern != [] && IsText(line) && NEWLINE !in line
    ensures Search(pattern, line) == if Contains(line, pattern) then [line] else []
  {
    SearchLast(pattern, line);
    TextLine(pattern, line);
    OccursIffContains(pattern, line);
  }

  lemma FoundAnywhere(pattern: seq<byte>, a: seq<byte>, b: seq<byte>)
    requires IsText(pattern) && pattern != [] && NEWLINE !in pattern
    requires IsText(a) && NEWLINE !in a && IsText(b) && NEWLINE !in b
    ensures Search(pattern, a + pattern + b) == [a + pattern + b]
  {
    LineFoundIff(pattern, a + pattern + b);
    assert Contains(a + pattern + b, pattern);
  }

  /** Line by line: what is printed of a text is its first line, if the pattern stands in it, and then what
      is printed of the rest. */
  lemma FirstLineFoundIff(pattern: seq<byte>, line: seq<byte>, rest: seq<byte>)
    requires IsText(pattern) && pattern != [] && IsText(line) && NEWLINE !in line
    ensures Search(pattern, line + [10] + rest)
      == (if Contains(line, pattern) then [line] else []) + Search(pattern, rest)
  {
    SearchPeels(pattern, line, rest);
    TextLine(pattern, line);
    OccursIffContains(pattern, line);
  }

  /** Nothing else is printed of any text. */
  lemma {:induction false} PrintedLinesContain(pattern: seq<byte>, text: seq<byte>)
    requires IsText(pattern) && pattern != [] && IsText(text)
    ensures forall line :: line in Search(pattern, text) ==> Contains(line, pattern) && NEWLINE !in line
    decreases |text|
  {
    hide Contains, Search;
    var n := FirstNewline(text);
    if n < |text| {
      assert text == text[..n] + [10] + text[n + 1..];
      FirstLineFoundIff(pattern, text[..n], text[n + 1..]);
      PrintedLinesContain(pattern, text[n + 1..]);
    } else {
      assert text[..n] == text;
      LineFoundIff(pattern, text);
    }
  }

  /** Nor does it matter that read_data adds a byte at the end, if that byte is the NUL the last block
      is padded with. */
  lemma {:induction false} PaddingIsHarmless(pattern: seq<byte>, text: seq<byte>)
    requires IsText(pattern) && IsText(text)
    ensures Search(pattern, text + [NUL]) == Search(pattern, text)
    decreases |text|
  {
    var n := FirstNewline(text);
    TextLine(pattern, text[..n]);
    NewlineBeforeNul(text);
    if n < |text| {
      var rest := text[n + 1..];
      assert text == text[..n] + [NEWLINE] + rest;
      assert text + [NUL] == text[..n] + [NEWLINE] + (rest + [NUL]);
      SearchPeels(pattern, text[..n], rest);
      SearchPeels(pattern, text[..n], rest + [NUL]);
      PaddingIsHarmless(pattern, rest);
    } else {
      assert text[..n] == text;
      SearchLast(pattern, text);
      SearchLast(pattern, text + [NUL]);
    }
  }

  // ---------------------------------------------------------------- pieces of the search

  lemma OccursMeansHas(pattern: seq<byte>, line: seq<byte>, b: byte)
    requires b in pattern
    ensures Occurs(pattern, line) ==> b in line
  {
    forall k | 0 <= k < |line| && OccursAt(pattern, line, k) ensures b in line {
      var i :| 0 <= i < |pattern| && pattern[i] == b;
      assert line[k..k + |pattern|][i] == line[k + i];
    }
  }

  lemma {:induction false} NewlineNeverFound(pattern: seq<byte>, text: seq<byte>)
    requires NEWLINE in pattern
    ensures Search(pattern, text) == []
    decreases |text|
  {
    var n := FirstNewline(text);
    SelectedSplits(pattern, text);
    OccursMeansHas(pattern, text[..n], NEWLINE);
    if n < |text| {
      NewlineNeverFound(pattern, text[n + 1..]);
    }
  }

  /** A pattern on a line of its own is a line that contains it. */
  lemma FoundInItself(pattern: seq<byte>)
    requires IsText(pattern) && pattern != [] && NEWLINE !in pattern
    ensures Search(pattern, pattern) == [pattern]
  {
    SearchLast(pattern, pattern);
    assert pattern[0..|pattern|] == pattern;
    assert OccursAt(pattern, pattern, 0);
    PrintedText(pattern);
  }

  /** The program prints what it should for every text exactly when the pattern starts with a byte below
      128, or cannot be found in any line. */
  lemma PrintsAllIff(pattern: seq<byte>)
    requires IsText(pattern) && pattern != []
    ensures (forall text :: Prints(pattern, text) == Search(pattern, text)) <==> pattern[0] < 128 || NEWLINE in pattern
  {
    if NEWLINE in pattern {
      forall text ensures Prints(pattern, text) == Search(pattern, text) {
        NewlineNeverFound(pattern, text);
      }
    } else {
      FoundInItself(pattern);
      assert pattern[0] >= 128 ==> Prints(pattern, pattern) != Search(pattern, pattern);
    }
  }

  /** ece391_strncmp of the text at `check` with the pattern; a NUL stands at `limit`. */
  method Compare(data: array<byte>, check: nat, limit: nat, pattern: seq<byte>) returns (r: int)
    requires check <= limit < data.Length && data[limit] == NUL
    requires IsText(pattern) && pattern != []
    ensures r == 0 <==> check + |pattern| <= limit && data[check..check + |pattern|] == pattern
  {
    var n := |pattern|;
    var i := 0;
    while data[check + i] == At(pattern, i)
      invariant 0 <= i < |pattern| && n == |pattern| - i
      invariant check + i <= limit
      invariant data[check..check + i] == pattern[..i]
      decreases n
    {
      assert pattern[i] in pattern;
      n := n - 1;
      if data[check + i] == NUL || n == 0 {
        assert data[check..check + i + 1] == pattern;
        return 0;
      }
      i := i + 1;
    }
    assert check + |pattern| <= limit ==> data[check..check + |pattern|][i] != pattern[i];
    return data[check + i] - At(pattern, i);
  }

  lemma OccursInBuffer(pattern: seq<byte>, buf: seq<byte>, start: nat, end: nat, check: nat)
    requires start <= check < end <= |buf| && pattern != []
    ensures OccursAt(pattern, buf[start..end], check - start)
      <==> check + |pattern| <= end && buf[check..check + |pattern|] == pattern
    ensures OccursAt(pattern, buf[start..end], check - start) ==> buf[check] == pattern[0]
  {
    if check + |pattern| <= end {
      var a, b := buf[start..end][check - start..check - start + |pattern|], buf[check..check + |pattern|];
      forall k | 0 <= k < |pattern| ensures a[k] == b[k] {
        assert b[k] == buf[check + k];
      }
      assert a == b && b[0] == buf[check];
    }
  }

  /** The search of one line, ended by a NUL. */
  method LineMatches(data: array<byte>, start: nat, end: nat, pattern: seq<byte>) returns (found: bool)
    requires start <= end < data.Length && data[end] == NUL
    requires IsText(pattern) && pattern != []
    ensures found <==> pattern[0] < 128 && Occurs(pattern, data[start..end])
  {
    ghost var line := data[start..end];
    var check := start;
    while check < end
      invariant start <= check <= end
      invariant pattern[0] < 128 ==> forall k :: 0 <= k < check - start ==> !OccursAt(pattern, line, k)
    {
      OccursInBuffer(pattern, data[..], start, end, check);
      if CharValue(pattern[0]) == data[check] {
        var r := Compare(data, check, end, pattern);
        if r == 0 {
          assert OccursAt(pattern, line, check - start);
          return true;
        }
      }
      check := check + 1;
    }
    return false;
  }

  /** ece391_fdputs of the line at `start`, which is ended by a NUL at `end`. */
  method PrintText(data: array<byte>, start: nat, end: nat) returns (text: seq<byte>)
    requires start <= end < data.Length && data[end] == NUL
    ensures text == Printed(data[start..end])
  {
    var i := start;
    while data[i] != NUL
      invariant start <= i <= end
      invariant forall k :: start <= k < i ==> data[k] != NUL
      decreases end - i
    {
      i := i + 1;
    }
    text := data[start..i];
    assert data[start..end] == text + data[i..end];
    TextOfPadded(text, data[i..end], end - start);
  }

  /** ece391_strcpy(data, data + from): the partial line moves to the front of the buffer. Only its
      last byte may be a NUL. */
  method ShiftDown(data: array<byte>, from: nat, last: nat)
    requires 0 < from <= last < data.Length && data[last] == NUL
    requires forall k :: from <= k < last - 1 ==> data[k] != NUL
    modifies data
    ensures data[..last - from] == old(data[from..last])
    ensures forall k :: last - from < k < data.Length ==> data[k] == old(data[k])
    ensures data[last - from] == NUL || data[last - from] == old(data[last - from])
  {
    var i := 0;
    while true
      invariant 0 <= i <= last - from
      invariant forall k :: 0 <= k < i ==> data[k] == old(data[from + k]) != NUL
      invariant forall k :: i <= k < data.Length ==> data[k] == old(data[k])
      decreases last - from - i
    {
      data[i] := data[from + i];
      if data[i] == NUL {
        break;
      }
      i := i + 1;
    }
  }

  method FindEnd(data: array<byte>, start: nat, last: nat) returns (end: nat)
    requires start <= last <= data.Length
    ensures start <= end <= last
    ensures NEWLINE !in data[start..end]
    ensures end < last ==> data[end] == NEWLINE
  {
    end := start;
    while end < last && data[end] != NEWLINE
      invariant start <= end <= last
      invariant NEWLINE !in data[start..end]
    {
      end := end + 1;
    }
  }

  // ---------------------------------------------------------------- the search of a file

  /** Only the very last byte of a file may be a NUL: the one the end guard of read_data adds. */
  predicate NulFree(file: seq<byte>) {
    forall k :: 0 <= k < |file| - 1 ==> file[k] != NUL
  }

  /** The buffer between two reads: it holds the start of `rest`, an unfinished line. */
  ghost predicate Pending(data: array<byte>, last: nat, rest: seq<byte>)
    reads data
  {
    && data.Length == BUFSIZE + 1 && data[BUFSIZE] != NEWLINE
    && last <= MAX_LINE && last <= |rest|
    && data[..last] == rest[..last]
    && NulFree(rest) && ShortLines(rest)
  }

  /** The buffer while its lines are searched: between `start` and `last` it holds the start of `rest`,
      what has not been searched yet, and no newline stands behind that. */
  ghost predicate Scanning(data: array<byte>, start: nat, last: nat, rest: seq<byte>)
    reads data
  {
    && data.Length == BUFSIZE + 1
    && start <= last <= BUFSIZE && last - start <= |rest|
    && data[start..last] == rest[..last - start]
    && (forall k :: last <= k <= BUFSIZE ==> data[k] != NEWLINE)
    && NulFree(rest) && ShortLines(rest)
  }

  /** What follows a first line of length `n`. */
  function AfterLine(s: seq<byte>, n: nat): seq<byte> {
    if n < |s| then s[n + 1..] else []
  }

  /** One turn of the inner loop. */
  lemma LineDone(pattern: seq<byte>, rest: seq<byte>, line: seq<byte>)
    requires pattern != [] && line <= rest && NEWLINE !in line
    requires |line| < |rest| ==> rest[|line|] == NEWLINE
    requires NulFree(rest) && ShortLines(rest)
    ensures Prints(pattern, rest) == PrintsLine(pattern, line) + Prints(pattern, AfterLine(rest, |line|))
    ensures |line| <= MAX_LINE
    ensures NulFree(AfterLine(rest, |line|)) && ShortLines(AfterLine(rest, |line|))
  {
    if |line| < |rest| {
      assert rest == line + [NEWLINE] + AfterLine(rest, |line|);
      SearchPeels(pattern, line, AfterLine(rest, |line|));
    } else {
      assert rest == line;
      SearchLast(pattern, line);
      SearchNothing(pattern);
      NoNewline([]);
      assert SearchLine(pattern, line) + [] == SearchLine(pattern, line);
    }
  }

  /** A full buffer holds a newline, or the file ends with it. */
  lemma LongestLine(rest: seq<byte>, line: seq<byte>)
    requires line <= rest && NEWLINE !in line && ShortLines(rest)
    ensures |line| <= MAX_LINE
  {
    FirstLineBound(rest, line);
    assert Lines(rest)[0] == rest[..FirstNewline(rest)];
  }

  lemma {:induction false} FirstLineBound(rest: seq<byte>, line: seq<byte>)
    requires line <= rest && NEWLINE !in line
    ensures |line| <= FirstNewline(rest)
  {
    if line != [] {
      assert line[0] == rest[0] && line[0] in line;
      assert line[1..] <= rest[1..];
      FirstLineBound(rest[1..], line[1..]);
    }
  }

  /** Ends the line with a NUL, searches it and prints it when it contains the pattern. */
  method SearchOne(data: array<byte>, start: nat, end: nat, pattern: seq<byte>, printed: seq<seq<byte>>)
    returns (out: seq<seq<byte>>)
    requires start <= end < data.Length && IsText(pattern) && pattern != []
    modifies data
    ensures forall k :: 0 <= k < data.Length ==> data[k] == if k == end then NUL else old(data[k])
    ensures out == printed + PrintsLine(pattern, old(data[start..end]))
  {
    data[end] := NUL;
    assert data[start..end] == old(data[start..end]);
    out := printed;
    var found := LineMatches(data, start, end, pattern);
    if found {
      var text := PrintText(data, start, end);
      out := out + [text];
    }
  }

  /** Searches the line from `start` to `end`, which is complete or the last of the file. */
  method SearchNext(data: array<byte>, start: nat, end: nat, last: nat, pattern: seq<byte>, printed: seq<seq<byte>>,
                    ghost rest: seq<byte>)
    returns (out: seq<seq<byte>>, ghost after: seq<byte>)
    requires IsText(pattern) && pattern != []
    requires Scanning(data, start, last, rest) && start <= end <= last && NEWLINE !in data[start..end]
    requires if end < last then data[end] == NEWLINE else last - start == |rest|
    modifies data
    ensures out + Prints(pattern, after) == printed + Prints(pattern, rest)
    ensures if end < last then
              && Scanning(data, end + 1, last, after)
              && last - (end + 1) <= |after| && after[last - (end + 1)..] == rest[last - start..]
            else
              after == [] && data[BUFSIZE] != NEWLINE
  {
    hide Prints, PrintsLine, ShortLines, NulFree;
    ghost var line := data[start..end];
    ghost var held := data[start..last];
    assert held == rest[..last - start];
    assert line == held[..end - start] by {
      assert |line| == end - start;
      assert forall k :: 0 <= k < end - start ==> line[k] == data[start + k] == held[k];
    }
    assert held[..end - start] == rest[..end - start];
    assert end < last ==> rest[end - start] == held[end - start];
    LineDone(pattern, rest, line);
    after := AfterLine(rest, |line|);
    assert end < last ==> held[end - start + 1..] == after[..last - (end + 1)];
    assert end < last ==> data[end + 1..last] == held[end - start + 1..];
    out := SearchOne(data, start, end, pattern, printed);
    assert end < last ==> data[end + 1..last] == old(data[end + 1..last]);
  }

  /** Moves the unfinished line to the front of the buffer. */
  method KeepUnfinished(data: array<byte>, start: nat, last: nat, ghost rest: seq<byte>) returns (kept: nat)
    requires Scanning(data, start, last, rest) && start > 0
    modifies data
    ensures kept == last - start && Pending(data, kept, rest)
  {
    data[last] := NUL;
    forall k | start <= k < last - 1 ensures data[k] != NUL {
      assert data[k] == data[start..last][k - start] == rest[k - start];
    }
    ghost var text := data[start..last];
    ShiftDown(data, start, last);
    kept := last - start;
    assert data[..kept] == text == rest[..kept];
  }

  /** The inner loop: searches the lines in the buffer and moves what follows them to its front. At
      the end of the file, and when the buffer holds nothing but one unfinished line, that line is
      searched too. */
  method SearchBuffer(pattern: seq<byte>, data: array<byte>, printed: seq<seq<byte>>, filled: nat, count: nat,
                      ghost whole: seq<byte>)
    returns (out: seq<seq<byte>>, last: nat, ghost rest: seq<byte>)
    requires IsText(pattern) && pattern != []
    requires Scanning(data, 0, filled, whole)
    requires count == 0 || filled < BUFSIZE ==> filled == |whole|
    modifies data
    ensures Pending(data, last, rest)
    ensures out + Prints(pattern, rest) == printed + Prints(pattern, whole)
    ensures rest[last..] == whole[filled..]
    ensures count == 0 ==> rest == []
  {
    assert filled <= |whole|;
    hide Prints, ShortLines, NulFree, Scanning, Pending;
    ghost var unread, all := whole[filled..], printed + Prints(pattern, whole);
    out, last, rest := printed, filled, whole;
    var start := 0;
    while true
      invariant start <= last == filled
      invariant Scanning(data, start, last, rest)
      invariant out + Prints(pattern, rest) == all
      invariant last - start <= |rest| && rest[last - start..] == unread
      decreases last - start
    {
      var end := FindLine(data, start, last, rest);
      if data[end] != NEWLINE && count != 0 && start != 0 {
        last := KeepUnfinished(data, start, last, rest);
        return;
      }
      out, rest := SearchNext(data, start, end, last, pattern, out, rest);
      start := end + 1;
      if start >= last {
        if end < last {
          AllSearched(data, last, rest);
        } else {
          NothingPending(data);
        }
        last := 0;
        return;
      }
    }
  }

  /** The loop that looks for the end of the line at `start`. */
  method FindLine(data: array<byte>, start: nat, last: nat, ghost rest: seq<byte>) returns (end: nat)
    requires Scanning(data, start, last, rest)
    ensures start <= end <= last <= BUFSIZE && data.Length == BUFSIZE + 1
    ensures NEWLINE !in data[start..end]
    ensures data[end] == NEWLINE <==> end < last
    ensures end - start <= MAX_LINE
  {
    end := FindEnd(data, start, last);
    LongestLine(rest, data[start..end]) by {
      assert data[start..end] == data[start..last][..end - start];
    }
  }

  lemma AllSearched(data: array<byte>, last: nat, rest: seq<byte>)
    requires Scanning(data, last, last, rest)
    ensures Pending(data, 0, rest)
  {
  }

  lemma NothingPending(data: array<byte>)
    requires data.Length == BUFSIZE + 1 && data[BUFSIZE] != NEWLINE
    ensures Pending(data, 0, [])
  {
    NoNewline([]);
  }

  /** Fills the buffer behind the unfinished line; there is always room for at least one byte. */
  method ReadMore(d: Descriptor, data: array<byte>, last: nat, ghost rest: seq<byte>) returns (count: nat)
    requires d.Valid() && Pending(data, last, rest)
    requires d.position <= |d.File()| && d.Remaining() == rest[last..]
    modifies d`position, data
    ensures d.position <= |d.File()| && d.position == old(d.position) + count
    ensures last + count <= |rest| && Scanning(data, 0, last + count, rest)
    ensures d.Remaining() == rest[last + count..]
    ensures count == 0 || last + count < BUFSIZE ==> last + count == |rest|
  {
    ghost var before := d.Remaining();
    ghost var held := data[..last];
    count := d.Read(data, last, BUFSIZE - last);
    assert data[..last + count] == held + data[last..last + count];
    assert rest[..last + count] == rest[..last] + before[..count];
    assert data[0..last + count] == data[..last + count];
    assert data[BUFSIZE..][0] == data[BUFSIZE];
    assert before[count..] == rest[last + count..];
  }

  lemma FilePending(data: array<byte>, file: seq<byte>)
    requires data.Length == BUFSIZE + 1 && data[BUFSIZE] != NEWLINE && NulFree(file) && ShortLines(file)
    ensures Pending(data, 0, file)
  {
  }

  lemma PrintsNothing(pattern: seq<byte>)
    requires pattern != []
    ensures Prints(pattern, []) == []
  {
    SearchNothing(pattern);
  }

  /** do_one_file, from the first read to the last: for a pattern that is not empty and a file of short
      lines, the lines printed are exactly those that contain the pattern, in order - and none if the
      pattern starts with a byte of 128 or more. */
  method SearchFile(d: Descriptor, pattern: seq<byte>, data: array<byte>) returns (out: seq<seq<byte>>)
    requires d.Valid() && d.position == 0
    requires IsText(pattern) && pattern != []
    requires data.Length == BUFSIZE + 1 && data[BUFSIZE] != NEWLINE
    requires NulFree(d.File()) && ShortLines(d.File())
    modifies d`position, data
    ensures out == if pattern[0] < 128 then Search(pattern, d.File()) else []
  {
    ghost var rest, all := d.File(), Prints(pattern, d.File());
    assert all == if pattern[0] < 128 then Search(pattern, rest) else [];
    FilePending(data, rest);
    hide Prints, Search, ShortLines, NulFree, Pending, Scanning, Descriptor.File;
    assert rest[0..] == rest;
    out := [];
    var last: nat := 0;
    while true
      invariant d.position <= |d.File()|
      invariant Pending(data, last, rest)
      invariant d.Remaining() == rest[last..]
      invariant out + Prints(pattern, rest) == all
      decreases |d.Remaining()|
    {
      var count := ReadMore(d, data, last, rest);
      last := last + count;
      out, last, rest := SearchBuffer(pattern, data, out, last, count, rest);
      if count == 0 {
        PrintsNothing(pattern);
        break;
      }
    }
  }
}
