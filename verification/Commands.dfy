/** Command lines as sys_execute reads them (student-distrib/syscall_handlers.c). */
module Commands {
  import opened Common

  const FILENAME_BUFFER := 32

  /** A program name and its argument string, empty when there is none. */
  datatype Parsed = Unparsable | Program(name: seq<byte>, arguments: seq<byte>)

  predicate EndsWord(b: byte) {
    b == SPACE || b == NEWLINE
  }

  function SkipSpaces(s: seq<byte>): (r: seq<byte>)
    ensures |r| <= |s|
    ensures r != [] ==> r[0] != SPACE
  {
    if s != [] && s[0] == SPACE then SkipSpaces(s[1..]) else s
  }

  /** The length of the word at the start of `s`. */
  function WordLength(s: seq<byte>): (n: nat)
    ensures n <= |s|
  {
    if s == [] || EndsWord(s[0]) then 0 else 1 + WordLength(s[1..])
  }

  function Parse(command: seq<byte>): Parsed {
    var body := SkipSpaces(command);
    var n := WordLength(body);
    if n == 0 then Unparsable
    else Program(body[..Min(n, FILENAME_BUFFER)], SkipSpaces(body[n..]))
  }

  /** What a command yields is text when the command is. */
  lemma ParsedText(command: seq<byte>)
    requires IsText(command)
    ensures var p := Parse(command);
      p.Program? ==> p.name != [] && IsText(p.name) && IsText(p.arguments)
  {
    var body := SkipSpaces(command);
    var n := WordLength(body);
    SkipText(command);
    SliceText(body, 0, Min(n, FILENAME_BUFFER));
    SliceText(body, n, |body|);
    SkipText(body[n..]);
  }

  lemma {:induction false} SkipText(s: seq<byte>)
    requires IsText(s)
    ensures IsText(SkipSpaces(s))
  {
    if s != [] && s[0] == SPACE {
      SkipText(s[1..]);
    }
  }

  lemma SliceText(s: seq<byte>, a: nat, b: nat)
    requires IsText(s) && a <= b <= |s|
    ensures IsText(s[a..b])
    ensures b == |s| ==> IsText(s[a..])
  {
  }

  predicate IsSpaces(s: seq<byte>) {
    forall i :: 0 <= i < |s| ==> s[i] == SPACE
  }

  lemma {:induction false} SkipLeading(gap: seq<byte>, rest: seq<byte>)
    requires IsSpaces(gap)
    requires rest != [] ==> rest[0] != SPACE
    ensures SkipSpaces(gap + rest) == rest
  {
    if gap == [] {
      assert gap + rest == rest;
    } else {
      assert (gap + rest)[1..] == gap[1..] + rest;
      SkipLeading(gap[1..], rest);
    }
  }

  lemma {:induction false} WordThen(word: seq<byte>, rest: seq<byte>)
    requires forall i :: 0 <= i < |word| ==> !EndsWord(word[i])
    requires rest != [] ==> EndsWord(rest[0])
    ensures WordLength(word + rest) == |word|
  {
    if word == [] {
      assert word + rest == rest;
    } else {
      assert (word + rest)[1..] == word[1..] + rest;
      WordThen(word[1..], rest);
    }
  }

  /** Parsing recovers what was typed: any program name, cut to 32 bytes, any argument text, any spacing. */
  lemma ParseRecovers(lead: seq<byte>, name: seq<byte>, gap: seq<byte>, arguments: seq<byte>)
    requires IsSpaces(lead) && IsSpaces(gap)
    requires name != [] && SPACE !in name && NEWLINE !in name
    requires arguments != [] ==> arguments[0] != SPACE && (gap != [] || arguments[0] == NEWLINE)
    ensures Parse(lead + (name + (gap + arguments))) == Program(name[..Min(|name|, 32)], arguments)
  {
    var tail := gap + arguments;
    var body := name + tail;
    assert forall i :: 0 <= i < |name| ==> name[i] in name;
    SkipLeading(lead, body);
    WordThen(name, tail);
    assert body[|name|..] == tail && body[..Min(|name|, 32)] == name[..Min(|name|, 32)];
    SkipLeading(gap, arguments);
  }

  /** Nothing can be parsed exactly when no name comes before the end or the first newline. */
  lemma UnparsableIff(lead: seq<byte>, rest: seq<byte>)
    requires IsSpaces(lead) && (rest != [] ==> rest[0] != 32)
    ensures Parse(lead + rest).Unparsable? <==> rest == [] || rest[0] == 10
  {
    SkipLeading(lead, rest);
  }

  method SkipSpacesFrom(command: seq<byte>, start: nat) returns (i: nat)
    requires start <= |command|
    ensures start <= i <= |command|
    ensures command[i..] == SkipSpaces(command[start..])
  {
    i := start;
    while i < |command| && command[i] == SPACE
      invariant start <= i <= |command|
      invariant SkipSpaces(command[start..]) == SkipSpaces(command[i..])
    {
      assert command[i..][1..] == command[i + 1..];
      i := i + 1;
    }
  }

  /** Copies the word at `start`, at most a buffer full of it, and steps over all of it. */
  method CopyWord(command: seq<byte>, start: nat) returns (name: seq<byte>, i: nat)
    requires start <= |command|
    ensures start <= i <= |command|
    ensures i - start == WordLength(command[start..])
    ensures name == command[start..][..Min(i - start, FILENAME_BUFFER)]
  {
    i := start;
    name := [];
    while i < |command| && !EndsWord(command[i]) && i - start < FILENAME_BUFFER
      invariant start <= i <= |command| && i - start <= FILENAME_BUFFER
      invariant name == command[start..i]
      invariant WordLength(command[start..]) == i - start + WordLength(command[i..])
    {
      assert command[i..][1..] == command[i + 1..];
      name := name + [command[i]];
      i := i + 1;
    }
    ghost var copied := i;
    while i < |command| && !EndsWord(command[i])
      invariant copied <= i <= |command|
      invariant i == copied || copied - start == FILENAME_BUFFER
      invariant WordLength(command[start..]) == i - start + WordLength(command[i..])
    {
      assert command[i..][1..] == command[i + 1..];
      i := i + 1;
    }
  }

  /** _execute_parse_args: the terminating NUL is the end of `command`. */
  method ParseArgs(command: seq<byte>) returns (p: Parsed)
    requires IsText(command)
    ensures p == Parse(command)
    ensures p.Program? ==> IsText(p.name) && IsText(p.arguments)
  {
    ParsedText(command);
    assert command[0..] == command;
    var i := SkipSpacesFrom(command, 0);
    if i == |command| || command[i] == NEWLINE {
      return Unparsable;
    }
    var name, j := CopyWord(command, i);
    assert !EndsWord(command[i..][0]);
    assert command[i..][j - i..] == command[j..];
    var k := SkipSpacesFrom(command, j);
    return Program(name, command[k..]);
  }
}
