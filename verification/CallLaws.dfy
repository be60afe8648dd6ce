/** Laws of the system calls on descriptors and on the virtual RTC (student-distrib/syscall_handlers.c). */
module CallLaws {
  import opened Common
  import opened Numbers
  import opened FileSystem
  import opened CallStacks
  import Streams

  /** open succeeds exactly when a descriptor from 2 on is free and the name is that of an entry of a
      known kind. It takes the least free descriptor, and a failure changes nothing. */
  lemma OpenLaw(m: Machine, img: Image, name: seq<byte>)
    requires CanCall(m) && ValidImage(img)
    ensures var p := Head(m, m.running);
      var (n, r) := Open(m, img, name);
      && (r != -1 <==> (exists fd :: MIN_FD <= fd < FD_COUNT && p.files[fd].None?)
                       && Lookup(img, name).Some? && Descriptor(Lookup(img, name).value).Some?)
      && (r == -1 ==> n == m)
      && (r != -1 ==>
            && MIN_FD <= r < FD_COUNT && p.files[r].None? && (forall fd :: MIN_FD <= fd < r ==> p.files[fd].Some?)
            && CanCall(n) && Head(n, n.running).files == p.files[r := Descriptor(Lookup(img, name).value)])
  {
    var p := Head(m, m.running);
    var fd := FreeFd(p.files, MIN_FD);
    var d := Lookup(img, name);
    if fd.Some? && d.Some? && Descriptor(d.value).Some? {
      HeadReplaced(m, m.running, Opened(p, fd.value, d.value));
    }
  }

  /** What the opened descriptor stands for, read off the entry that is called so: the RTC, the directory, or
      the entry's own inode at position 0. Nothing else of the process changes, but for the rate of an RTC. */
  lemma OpenFills(m: Machine, img: Image, name: seq<byte>, i: nat)
    requires CanCall(m) && ValidImage(img) && IsText(name) && IsFirst(img, name, i)
    requires exists fd :: 2 <= fd < 8 && Head(m, m.running).files[fd].None?
    ensures var p := Head(m, m.running);
      var d := img.dentries[i];
      var (n, r) := Open(m, img, name);
      && (d.fileType > 2 ==> (n, r) == (m, -1))
      && (d.fileType <= 2 ==>
            && 2 <= r < 8 && CanCall(n) && n.running == m.running
            && Head(n, n.running).(divider := p.divider, counter := p.counter)
               == p.(files := p.files[r := Some(if d.fileType == 0 then OpenFile(RtcOps, 0, 0)
                                                else if d.fileType == 1 then OpenFile(DirectoryOps, 0, 0)
                                                else OpenFile(RegularOps, d.inode, 0))])
            && (d.fileType == 0 ==> Head(n, n.running).divider == Head(n, n.running).counter == 256)
            && (d.fileType != 0 ==> Head(n, n.running).divider == p.divider && Head(n, n.running).counter == p.counter))
  {
    LookupIff(img, name);
    var fd := FreeFd(Head(m, m.running).files, MIN_FD);
    assert fd.Some?;
    if img.dentries[i].fileType <= 2 {
      HeadReplaced(m, m.running, Opened(Head(m, m.running), fd.value, img.dentries[i]));
    }
  }

  /** A read through the descriptor just opened starts at the beginning of the named file. */
  lemma OpenedReads(m: Machine, img: Image, name: seq<byte>, i: nat, nbytes: nat)
    requires CanCall(m) && ValidImage(img) && IsText(name) && IsFirst(img, name, i) && nbytes > 0
    requires img.dentries[i].fileType == 2 && img.dentries[i].inode < 63
    requires exists fd :: 2 <= fd < 8 && Head(m, m.running).files[fd].None?
    ensures var (n, fd) := Open(m, img, name);
      && CanCall(n) && fd >= 0
      && ReadFile(n, img, fd, nbytes).1 == |Slice(Contents(img, img.inodes[img.dentries[i].inode]), 0, nbytes)|
  {
    OpenFills(m, img, name, i);
  }

  /** close succeeds exactly for an open descriptor from 2 to 7, which is then closed; nothing else changes. */
  lemma CloseLaw(m: Machine, fd: int)
    requires CanCall(m)
    ensures var p := Head(m, m.running);
      var (n, r) := Close(m, fd);
      && (r == 0 <==> 2 <= fd < 8 && p.files[fd].Some?)
      && (r != 0 ==> r == -1 && n == m)
      && (r == 0 ==> n == WithHead(m, m.running, p.(files := p.files[fd := None])))
  {
  }

  /** close undoes open, except that the rate an RTC was opened with stays set. */
  lemma CloseUndoesOpen(m: Machine, img: Image, name: seq<byte>)
    requires CanCall(m) && ValidImage(img) && Open(m, img, name).1 != -1
    ensures var (n, fd) := Open(m, img, name);
      && CanCall(n)
      && Close(n, fd) == (if Lookup(img, name).value.fileType == RTC_TYPE then WriteRtc(m, 2, 4).0 else m, 0)
  {
    OpenLaw(m, img, name);
    var p := Head(m, m.running);
    var (n, fd) := Open(m, img, name);
    var d := Lookup(img, name).value;
    var q := Opened(p, fd, d);
    HeadReplaced(m, m.running, q);
    assert p.files[fd := Descriptor(d)][fd := None] == p.files;
    assert DividerFor(2) == DEFAULT_RTC_DIVIDER;
    SameTable(m, q, q.(files := p.files));
  }

  /** Only the last of two values stored in a head remains. */
  lemma SameTable(m: Machine, p: Process, q: Process)
    requires CanCall(m)
    requires ProcessOk(p) && p.terminal == m.running && p.depth == |m.stacks[m.running]| - 1
    requires ProcessOk(q) && q.terminal == m.running && q.depth == |m.stacks[m.running]| - 1
    ensures WithHead(WithHead(m, m.running, p), m.running, q) == WithHead(m, m.running, q)
    ensures WithHead(m, m.running, Head(m, m.running)) == m
  {
  }

  /** The test of the requested frequency comes to an end. */
  ghost predicate Answered(frequency: int, nbytes: int) {
    nbytes == 4 ==> frequency == 0 || exists k: nat :: LeavesAt(frequency, k)
  }

  /** The rate of a virtual RTC is set exactly by four-byte requests for a power of two; divider and
      counter are then 512 divided by the frequency, or 1 above 512 Hz. Four-byte requests for a negative
      frequency are never answered; the function's -1 stands for that, too. */
  lemma WriteRtcLaw(m: Machine, frequency: int, nbytes: int)
    requires CanCall(m)
    ensures Answered(frequency, nbytes) <==> nbytes != 4 || frequency >= 0
    ensures var (n, r) := WriteRtc(m, frequency, nbytes);
      && (r == 0 <==> nbytes == 4 && exists k: nat :: frequency == Pow(2, k))
      && (r != 0 ==> r == -1 && n == m)
      && (r == 0 ==>
            var p := Head(n, m.running);
            && p.divider * Min(frequency, MAX_RTC_FREQUENCY) == MAX_RTC_FREQUENCY
            && p == Head(m, m.running).(divider := p.divider, counter := p.divider))
  {
    ReturnsIff(frequency);
    forall k: nat ensures IsPowerOfTwo(Pow(2, k)) {
      PowIsPowerOfTwo(k);
    }
    if IsPowerOfTwo(frequency) {
      var k := PowerOfTwoIsPow(frequency);
      var divider := DividerFor(frequency);
      HeadReplaced(m, m.running, Head(m, m.running).(divider := divider, counter := divider));
    }
  }

  /** The machine after the position of an open file has moved on. */
  function Advanced(m: Machine, fd: nat, count: nat): (r: Machine)
    requires CanCall(m) && MIN_FD <= fd < FD_COUNT && Head(m, m.running).files[fd].Some?
    ensures CanCall(r)
  {
    var p := Head(m, m.running);
    var f := p.files[fd].value;
    WithHead(m, m.running, p.(files := p.files[fd := Some(f.(position := f.position + count))]))
  }

  lemma AdvancedAdds(m: Machine, fd: nat, a: nat, b: nat)
    requires CanCall(m) && MIN_FD <= fd < FD_COUNT && Head(m, m.running).files[fd].Some?
    ensures Advanced(m, fd, 0) == m
    ensures var n := Advanced(m, fd, a);
      && n.running == m.running && Head(n, n.running).files[fd].Some?
      && var f := Head(m, m.running).files[fd].value;
      && Head(n, n.running).files[fd].value == f.(position := f.position + a)
      && Advanced(n, fd, b) == Advanced(m, fd, a + b)
  {
    var p := Head(m, m.running);
    var f := p.files[fd].value;
    var q := p.(files := p.files[fd := Some(f.(position := f.position + a))]);
    var r := p.(files := p.files[fd := Some(f.(position := f.position + (a + b)))]);
    HeadReplaced(m, m.running, q);
    SameTable(m, q, r);
    assert p.files[fd := Some(f.(position := f.position + 0))] == p.files;
    assert q.files[fd := Some(f.(position := f.position + a + b))] == r.files;
  }

  /** The descriptor is that of an open regular file. */
  predicate Readable(m: Machine, fd: int)
    requires CanCall(m)
  {
    && MIN_FD <= fd < FD_COUNT && Head(m, m.running).files[fd].Some?
    && Head(m, m.running).files[fd].value.ops == RegularOps && Head(m, m.running).files[fd].value.inode < DIR_ENTRIES
  }

  /** A read fails, changing nothing, exactly for a request of no bytes or a descriptor that is not readable. */
  lemma ReadFailsIff(m: Machine, img: Image, fd: int, nbytes: int)
    requires CanCall(m) && ValidImage(img)
    ensures ReadFile(m, img, fd, nbytes).1 == -1 <==> nbytes <= 0 || !Readable(m, fd)
    ensures ReadFile(m, img, fd, nbytes).1 == -1 ==> ReadFile(m, img, fd, nbytes).0 == m
  {
  }

  /** A read that does not fail delivers the next bytes and advances the position by their number. */
  lemma ReadAdvances(m: Machine, img: Image, fd: int, nbytes: nat)
    requires CanCall(m) && ValidImage(img) && nbytes > 0 && Readable(m, fd)
    ensures var f := Head(m, m.running).files[fd].value;
      var count := |Slice(Contents(img, img.inodes[f.inode]), f.position, nbytes)|;
      ReadFile(m, img, fd, nbytes) == (Advanced(m, fd, count), count)
  {
    AdvancedAdds(m, fd, 0, 0);
  }

  /** Two reads from a file are one read of both sizes: together they deliver as many bytes and leave
      the position at the same place. */
  lemma ReadsCompose(m: Machine, img: Image, fd: int, a: int, b: int)
    requires CanCall(m) && ValidImage(img) && a > 0 && b > 0
    requires ReadFile(m, img, fd, a).1 != -1
    ensures var (n, first) := ReadFile(m, img, fd, a);
      && CanCall(n)
      && ReadFile(n, img, fd, b).0 == ReadFile(m, img, fd, a + b).0
      && first + ReadFile(n, img, fd, b).1 == ReadFile(m, img, fd, a + b).1
  {
    hide ReadFile, Slice, Contents;
    ReadFailsIff(m, img, fd, a);
    var f := Head(m, m.running).files[fd].value;
    var content := Contents(img, img.inodes[f.inode]);
    var first := |Slice(content, f.position, a)|;
    Streams.SlicesJoin(content, f.position, a, b);
    AdvancedAdds(m, fd, first, |Slice(content, f.position + first, b)|);
    hide Advanced;
    ReadAdvances(m, img, fd, a);
    ReadAdvances(m, img, fd, a + b);
    ReadAdvances(Advanced(m, fd, first), img, fd, b);
  }
}
