/** Reading a file through a descriptor, and cat (student-distrib/syscall_handlers.c,
    syscalls/ece391cat.c). */
module Streams {
  import opened Common
  import opened FileSystem

  /** file_desc_t of an open regular file. */
  class Descriptor {
    const img: Image
    const inode: nat
    var position: nat

    constructor (img: Image, inode: nat)
      ensures this.img == img && this.inode == inode && position == 0
    {
      this.img := img;
      this.inode := inode;
      position := 0;
    }

    predicate Valid() {
      ValidImage(img) && inode < DIR_ENTRIES
    }

    /** All bytes of the file. */
    function File(): (s: seq<byte>)
      requires Valid()
      ensures |s| > 0
    {
      Contents(img, img.inodes[inode])
    }

    /** What is left to read. */
    function Remaining(): seq<byte>
      requires Valid()
      reads this
    {
      Rest(File(), position)
    }

    /** sys_read on a regular file: delivers the next bytes and clears the rest of the buffer. */
    method Read(buf: array<byte>, start: nat, nbytes: int) returns (r: int)
      requires Valid()
      requires nbytes > 0 ==> start + nbytes <= buf.Length
      modifies this`position, buf
      ensures nbytes <= 0 ==> r == -1 && position == old(position) && buf[..] == old(buf[..])
      ensures nbytes > 0 ==>
        && r == Min(nbytes, |old(Remaining())|)
        && position == old(position) + r
        && Remaining() == old(Remaining())[r..]
        && buf[..start] == old(buf[..start])
        && buf[start..start + r] == old(Remaining())[..r] == Slice(File(), old(position), nbytes)
        && (forall k :: start + r <= k < start + nbytes ==> buf[k] == NUL)
        && buf[start + nbytes..] == old(buf[start + nbytes..])
    {
      hide ValidImage, Slice, Rest, Contents;
      if nbytes <= 0 {
        return -1;
      }
      r := ReadData(img, inode, position, buf, start, nbytes);
      RestAdvances(File(), position, nbytes);
      if r > 0 {
        position := position + r;
      }
    }
  }

  function Rest(file: seq<byte>, position: nat): seq<byte> {
    if position <= |file| then file[position..] else []
  }

  /** The next read delivers the start of the rest. */
  lemma RestAdvances(file: seq<byte>, position: nat, n: nat)
    ensures var got, rest := Slice(file, position, n), Rest(file, position);
      && |got| == Min(n, |rest|) && got == rest[..|got|]
      && Rest(file, position + |got|) == rest[|got|..]
  {
  }

  // ---------------------------------------------------------------- successive reads

  function Sum(sizes: seq<nat>): nat {
    if sizes == [] then 0 else sizes[0] + Sum(sizes[1..])
  }

  /** What reads of the given sizes deliver one after the other. */
  function Delivered(file: seq<byte>, position: nat, sizes: seq<nat>): seq<byte>
    decreases |sizes|
  {
    if sizes == [] then []
    else
      var got := Slice(file, position, sizes[0]);
      got + Delivered(file, position + |got|, sizes[1..])
  }

  lemma FirstRead(file: seq<byte>, position: nat, sizes: seq<nat>)
    requires sizes != []
    ensures var got := Slice(file, position, sizes[0]);
      Delivered(file, position, sizes) == got + Delivered(file, position + |got|, sizes[1..])
    ensures Sum(sizes) == sizes[0] + Sum(sizes[1..])
  {
  }

  lemma NoReads(file: seq<byte>, position: nat)
    ensures Delivered(file, position, []) == [] == Slice(file, position, Sum([]))
  {
  }

  /** However a read is cut into pieces, the pieces are the whole, and the position has moved by what
      was delivered. */
  lemma {:induction false} ReadsCompose(file: seq<byte>, position: nat, sizes: seq<nat>)
    ensures Delivered(file, position, sizes) == Slice(file, position, Sum(sizes))
    decreases |sizes|
  {
    hide Slice, Sum, Delivered;
    if sizes == [] {
      NoReads(file, position);
    } else {
      FirstRead(file, position, sizes);
      ReadsCompose(file, position + |Slice(file, position, sizes[0])|, sizes[1..]);
      SlicesJoin(file, position, sizes[0], Sum(sizes[1..]));
    }
  }

  lemma SlicesJoin(file: seq<byte>, position: nat, a: nat, b: nat)
    ensures var got := Slice(file, position, a);
      got + Slice(file, position + |got|, b) == Slice(file, position, a + b)
  {
  }

  lemma {:induction false} SumNext(sizes: seq<nat>, i: nat)
    requires i < |sizes|
    ensures Sum(sizes[..i + 1]) == Sum(sizes[..i]) + sizes[i]
    decreases i
  {
    assert sizes[..i + 1][1..] == sizes[1..][..i];
    if i > 0 {
      assert sizes[..i][1..] == sizes[1..][..i - 1];
      SumNext(sizes[1..], i - 1);
    }
  }

  /** Reads of the given sizes into one buffer, as a program would make them. */
  method ReadPieces(d: Descriptor, buf: array<byte>, sizes: seq<nat>) returns (all: seq<byte>)
    requires d.Valid()
    requires forall i :: 0 <= i < |sizes| ==> 0 < sizes[i] <= buf.Length
    modifies d`position, buf
    ensures all == Slice(d.File(), old(d.position), Sum(sizes))
    ensures d.position == old(d.position) + |all|
  {
    all := [];
    ghost var file, from := d.File(), d.position;
    ghost var asked := 0;
    var i := 0;
    while i < |sizes|
      invariant 0 <= i <= |sizes|
      invariant asked == Sum(sizes[..i])
      invariant all == Slice(file, from, asked)
      invariant d.position == from + |all|
    {
      SumNext(sizes, i);
      SlicesJoin(file, from, asked, sizes[i]);
      var r := d.Read(buf, 0, sizes[i]);
      all := all + buf[..r];
      asked := asked + sizes[i];
      i := i + 1;
    }
    assert sizes[..i] == sizes;
  }

  const CAT_BUFFER := 1024

  /** cat: reads until a read delivers nothing, which it must; what was written is the file. */
  method Cat(d: Descriptor) returns (output: seq<byte>)
    requires d.Valid() && d.position == 0
    modifies d`position
    ensures output == d.File()
    ensures d.position == |d.File()|
  {
    var buf := new byte[CAT_BUFFER](_ => NUL);
    output := [];
    var count := d.Read(buf, 0, CAT_BUFFER);
    while count != 0
      invariant 0 <= count <= CAT_BUFFER
      invariant d.position <= |d.File()|
      invariant output + buf[..count] == d.File()[..d.position]
      invariant count == 0 ==> d.Remaining() == []
      decreases |d.Remaining()| + count
    {
      output := output + buf[..count];
      count := d.Read(buf, 0, CAT_BUFFER);
    }
  }
}
