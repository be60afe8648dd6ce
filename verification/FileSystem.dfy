/** The read-only file system image (student-distrib/filesys.c). */
module FileSystem {
  import opened Common
  import opened CStrings

  const DIR_ENTRIES := 63
  const FILENAME_LEN := 32
  const BLOCK_SIZE := 4096
  const INODE_BLOCKS := 1023

  const RTC_TYPE := 0
  const DIRECTORY_TYPE := 1
  const FILE_TYPE := 2

  /** A directory entry; its name fills all 32 bytes, padded with NULs when shorter. */
  datatype Dentry = Dentry(name: seq<byte>, fileType: nat, inode: nat)

  datatype Inode = Inode(length: nat, blocks: seq<nat>)

  datatype Image = Image(dentries: seq<Dentry>, inodes: seq<Inode>, data: seq<byte>)

  /** What the code relies on without checking: the tables have their fixed sizes and every
      block number names a block of the image. */
  predicate ValidImage(img: Image) {
    && |img.dentries| == DIR_ENTRIES
    && |img.inodes| >= DIR_ENTRIES
    && (forall d :: 0 <= d < |img.dentries| ==> |img.dentries[d].name| == FILENAME_LEN)
    && (forall n :: 0 <= n < |img.inodes| ==> ValidInode(img, img.inodes[n]))
  }

  predicate ValidInode(img: Image, ino: Inode) {
    && |ino.blocks| == INODE_BLOCKS
    && ino.length < INODE_BLOCKS * BLOCK_SIZE
    && forall k :: 0 <= k < |ino.blocks| ==> (ino.blocks[k] + 1) * BLOCK_SIZE <= |img.data|
  }

  /** The end bound the read loop enforces. Its guard is `>`, so the byte at position `length`
      is still delivered and the bound is one past the recorded length. */
  function EndBound(ino: Inode): nat {
    ino.length + 1
  }

  /** Where position `p` of a file lies in the data blocks. */
  function Locate(ino: Inode, p: nat): nat
    requires p / BLOCK_SIZE < |ino.blocks|
  {
    ino.blocks[p / BLOCK_SIZE] * BLOCK_SIZE + p % BLOCK_SIZE
  }

  lemma LocateInRange(img: Image, ino: Inode, p: nat)
    requires ValidInode(img, ino) && p < EndBound(ino)
    ensures p / BLOCK_SIZE < |ino.blocks| && Locate(ino, p) < |img.data|
  {
    assert (ino.blocks[p / BLOCK_SIZE] + 1) * BLOCK_SIZE <= |img.data|;
  }

  /** The flat file: all bytes a reader can ever obtain, blocks joined in order. */
  function Contents(img: Image, ino: Inode): (s: seq<byte>)
    requires ValidInode(img, ino)
    ensures |s| == EndBound(ino)
  {
    seq(EndBound(ino), p requires 0 <= p < EndBound(ino) =>
      LocateInRange(img, ino, p); img.data[Locate(ino, p)])
  }

  lemma ContentsAt(img: Image, ino: Inode, p: nat)
    requires ValidInode(img, ino) && p < EndBound(ino)
    ensures p / BLOCK_SIZE < |ino.blocks| && Locate(ino, p) < |img.data|
    ensures Contents(img, ino)[p] == img.data[Locate(ino, p)]
  {
    LocateInRange(img, ino, p);
  }

  /** The part of `s` that a read of `length` bytes at `offset` delivers. */
  function Slice(s: seq<byte>, offset: nat, length: nat): (r: seq<byte>)
    ensures |r| == Min(length, Max(0, |s| - offset))
  {
    if offset >= |s| then [] else s[offset..Min(offset + length, |s|)]
  }

  /** The bytes of a file are the bytes of its blocks, block by block in the order of the table; the last
      position is the recorded length itself. */
  lemma BytesOfBlock(img: Image, ino: Inode, k: nat, j: nat)
    requires ValidInode(img, ino) && j < 4096 && k * 4096 + j <= ino.length
    ensures |Contents(img, ino)| == ino.length + 1
    ensures k < |ino.blocks| && ino.blocks[k] * 4096 + j < |img.data|
    ensures Contents(img, ino)[k * 4096 + j] == img.data[ino.blocks[k] * 4096 + j]
  {
    ContentsAt(img, ino, k * 4096 + j);
  }

  /** So are the bytes a read delivers. */
  lemma ReadDeliversBlocks(img: Image, ino: Inode, offset: nat, length: nat, i: nat)
    requires ValidInode(img, ino) && i < |Slice(Contents(img, ino), offset, length)|
    ensures var k, j := (offset + i) / 4096, (offset + i) % 4096;
      && k < |ino.blocks| && ino.blocks[k] * 4096 + j < |img.data|
      && Slice(Contents(img, ino), offset, length)[i] == img.data[ino.blocks[k] * 4096 + j]
  {
    var p := offset + i;
    assert p < |Contents(img, ino)| && p == p / 4096 * 4096 + p % 4096;
    BytesOfBlock(img, ino, p / 4096, p % 4096);
    assert Slice(Contents(img, ino), offset, length)[i] == Contents(img, ino)[p];
  }

  /** The block table as the loop reads it. Past its end the C code picks up a stray word, but the
      address made from it is never dereferenced, so any value does. */
  function BlockAt(ino: Inode, k: nat): nat {
    if k < |ino.blocks| then ino.blocks[k] else 0
  }

  /** The read loop's block number and data pointer for position `p`. */
  predicate PointsAt(ino: Inode, blockNum: nat, cur: nat, p: nat) {
    blockNum == p / BLOCK_SIZE && cur == BlockAt(ino, blockNum) * BLOCK_SIZE + p % BLOCK_SIZE
  }

  /** One step of the data pointer: at a block boundary the next block must be looked up. */
  lemma NextPosition(ino: Inode, blockNum: nat, cur: nat, p: nat)
    requires PointsAt(ino, blockNum, cur, p)
    ensures if (cur + 1) % BLOCK_SIZE == 0
            then PointsAt(ino, blockNum + 1, BlockAt(ino, blockNum + 1) * BLOCK_SIZE, p + 1)
            else PointsAt(ino, blockNum, cur + 1, p + 1)
  {
  }

  /** memset to NUL. */
  method Clear(buf: array<byte>, start: nat, length: nat)
    requires start + length <= buf.Length
    modifies buf
    ensures forall k :: 0 <= k < buf.Length ==>
      buf[k] == if start <= k < start + length then NUL else old(buf[k])
  {
    forall k | start <= k < start + length {
      buf[k] := NUL;
    }
  }

  /** read_data: walks the block map and copies byte by byte. */
  method ReadData(img: Image, inode: nat, offset: nat, buf: array<byte>, start: nat, length: nat)
    returns (count: int)
    requires ValidImage(img)
    requires start + length <= buf.Length
    modifies buf
    ensures inode >= DIR_ENTRIES ==> count == -1 && buf[..] == old(buf[..])
    ensures inode < DIR_ENTRIES ==>
      var got := Slice(Contents(img, img.inodes[inode]), offset, length);
      && count == |got|
      && buf[start..start + count] == got
      && (forall k :: start + count <= k < start + length ==> buf[k] == NUL)
      && buf[..start] == old(buf[..start])
      && buf[start + length..] == old(buf[start + length..])
  {
    if inode >= DIR_ENTRIES {
      return -1;
    }
    Clear(buf, start, length);
    var ino := img.inodes[inode];
    count := CopyBlocks(img, ino, offset, buf, start, length);
    DeliveredIs(Contents(img, ino), offset, length, buf[start..start + count]);
  }

  lemma FirstPosition(ino: Inode, offset: nat)
    ensures var blockNum := offset / BLOCK_SIZE;
      PointsAt(ino, blockNum, BlockAt(ino, blockNum) * BLOCK_SIZE + offset % BLOCK_SIZE, offset)
  {
  }

  lemma ByteAt(img: Image, ino: Inode, blockNum: nat, cur: nat, p: nat)
    requires ValidInode(img, ino) && PointsAt(ino, blockNum, cur, p) && p < EndBound(ino)
    ensures cur < |img.data| && img.data[cur] == Contents(img, ino)[p]
  {
    ContentsAt(img, ino, p);
  }

  /** The loop of read_data, over a buffer that has been cleared. */
  method CopyBlocks(img: Image, ino: Inode, offset: nat, buf: array<byte>, start: nat, length: nat)
    returns (count: nat)
    requires ValidInode(img, ino) && start + length <= buf.Length
    requires forall k :: start <= k < start + length ==> buf[k] == NUL
    modifies buf
    ensures count <= length && (count == length || offset + count >= |Contents(img, ino)|)
    ensures count > 0 ==> offset + count <= |Contents(img, ino)|
    ensures forall k :: start <= k < start + count ==> buf[k] == Contents(img, ino)[offset + k - start]
    ensures forall k :: start + count <= k < start + length ==> buf[k] == NUL
    ensures forall k :: 0 <= k < start || start + length <= k < buf.Length ==> buf[k] == old(buf[k])
  {
    ghost var flat := Contents(img, ino);
    var blockNum: nat := offset / BLOCK_SIZE;
    var cur: nat := BlockAt(ino, blockNum) * BLOCK_SIZE + offset % BLOCK_SIZE;
    var left := length;
    count := 0;
    FirstPosition(ino, offset);
    hide PointsAt, BlockAt, Contents;
    while left != 0
      invariant 0 <= count && count + left == length
      invariant count > 0 ==> offset + count <= |flat|
      invariant left > 0 ==> PointsAt(ino, blockNum, cur, offset + count)
      invariant forall k :: start <= k < start + count ==> buf[k] == flat[offset + k - start]
      invariant forall k :: start + count <= k < start + length ==> buf[k] == NUL
      invariant forall k :: 0 <= k < start || start + length <= k < buf.Length ==> buf[k] == old(buf[k])
    {
      if count + offset > ino.length {
        break;
      }
      ByteAt(img, ino, blockNum, cur, offset + count);
      buf[start + count] := img.data[cur];
      NextPosition(ino, blockNum, cur, offset + count);
      cur := cur + 1;
      left := left - 1;
      count := count + 1;
      if cur % BLOCK_SIZE == 0 && left > 0 {
        blockNum := blockNum + 1;
        cur := BlockAt(ino, blockNum) * BLOCK_SIZE;
      }
    }
  }

  /** Enough to recognise a slice by. */
  lemma DeliveredIs(flat: seq<byte>, offset: nat, length: nat, s: seq<byte>)
    requires |s| <= length && (s == [] || offset + |s| <= |flat|)
    requires |s| == length || offset + |s| >= |flat|
    requires forall k :: 0 <= k < |s| ==> s[k] == flat[offset + k]
    ensures s == Slice(flat, offset, length)
  {
  }

  // ---------------------------------------------------------------- the end guard

  /** What the comment at the guard asks for: nothing at or past the recorded length. */
  function IntendedCount(ino: Inode, offset: nat, length: nat): nat {
    Min(length, Max(0, ino.length - offset))
  }

  /** The guard meets that intent exactly for reads that stop inside the file, start past its
      end, or ask for nothing. */
  lemma GuardMeetsIntentIff(img: Image, ino: Inode, offset: nat, length: nat)
    requires ValidInode(img, ino)
    ensures |Slice(Contents(img, ino), offset, length)| == IntendedCount(ino, offset, length)
            <==> offset + length <= ino.length || offset > ino.length || length == 0
  {
  }

  /** Even an empty file delivers one byte. */
  lemma EmptyFileDeliversAByte(img: Image, ino: Inode)
    requires ValidInode(img, ino) && ino.length == 0
    ensures Slice(Contents(img, ino), 0, 1) == [img.data[ino.blocks[0] * BLOCK_SIZE]]
  {
    ContentsAt(img, ino, 0);
  }

  // ---------------------------------------------------------------- directory lookup

  predicate NameMatches(name: seq<byte>, d: Dentry) {
    TextOf(d.name, FILENAME_LEN) == TextOf(name, FILENAME_LEN)
  }

  /** The first entry from `i` on that carries the name. */
  function FirstMatch(name: seq<byte>, dentries: seq<Dentry>, i: nat): (d: Option<Dentry>)
    requires i <= |dentries|
    ensures d.Some? <==> exists k :: i <= k < |dentries| && NameMatches(name, dentries[k])
    ensures d.Some? ==> NameMatches(name, d.value) && d.value in dentries
    decreases |dentries| - i
  {
    if i == |dentries| then None
    else if NameMatches(name, dentries[i]) then Some(dentries[i])
    else FirstMatch(name, dentries, i + 1)
  }

  /** The entry a name denotes: none for an empty or over-long name. */
  function Lookup(img: Image, name: seq<byte>): Option<Dentry> {
    if name == [] || |name| > FILENAME_LEN then None else FirstMatch(name, img.dentries, 0)
  }

  /** The entry's 32 bytes are the name, ended by a NUL unless it fills them all. */
  predicate Called(d: Dentry, name: seq<byte>) {
    0 < |name| <= 32 && name <= d.name && (|name| == 32 || (|d.name| > |name| && d.name[|name|] == 0))
  }

  /** Entry `i` is the first one called so. */
  predicate IsFirst(img: Image, name: seq<byte>, i: nat) {
    i < |img.dentries| && Called(img.dentries[i], name) && forall k :: 0 <= k < i ==> !Called(img.dentries[k], name)
  }

  lemma MatchesIffCalled(name: seq<byte>, d: Dentry)
    requires IsText(name) && 0 < |name| <= 32 && |d.name| == 32
    ensures NameMatches(name, d) <==> Called(d, name)
  {
    TextOfPadded(name, [], 32);
    assert name + [] == name;
    if Called(d, name) {
      assert d.name == name + d.name[|name|..];
      TextOfPadded(name, d.name[|name|..], 32);
    }
  }

  /** A lookup finds the first entry called so, and fails when there is none. A name of 32 bytes has
      entries, too, one of 33 has not. */
  lemma LookupIff(img: Image, name: seq<byte>)
    requires ValidImage(img) && IsText(name)
    ensures forall i: nat :: IsFirst(img, name, i) ==> Lookup(img, name) == Some(img.dentries[i])
    ensures Lookup(img, name).None? <==> forall d :: d in img.dentries ==> !Called(d, name)
  {
    if 0 < |name| <= 32 {
      forall d | d in img.dentries ensures NameMatches(name, d) <==> Called(d, name) {
        MatchesIffCalled(name, d);
      }
      forall i: nat | IsFirst(img, name, i) ensures Lookup(img, name) == Some(img.dentries[i]) {
        FirstIsFound(name, img.dentries, 0, i);
      }
    }
  }

  lemma {:induction false} FirstIsFound(name: seq<byte>, dentries: seq<Dentry>, i: nat, k: nat)
    requires i <= k < |dentries| && NameMatches(name, dentries[k])
    requires forall j :: i <= j < k ==> !NameMatches(name, dentries[j])
    ensures FirstMatch(name, dentries, i) == Some(dentries[k])
    decreases k - i
  {
    if i < k {
      FirstIsFound(name, dentries, i + 1, k);
    }
  }

  /** read_dentry_by_name. */
  method ReadDentryByName(img: Image, name: seq<byte>) returns (d: Option<Dentry>)
    requires ValidImage(img) && IsText(name)
    ensures d == Lookup(img, name)
  {
    if name == [] || |name| > FILENAME_LEN {
      return None;
    }
    var i := 0;
    while i < DIR_ENTRIES
      invariant 0 <= i <= DIR_ENTRIES
      invariant FirstMatch(name, img.dentries, 0) == FirstMatch(name, img.dentries, i)
    {
      var r := Strncmp(name, img.dentries[i].name, FILENAME_LEN);
      if r == 0 {
        return Some(img.dentries[i]);
      }
      i := i + 1;
    }
    return None;
  }

  // ---------------------------------------------------------------- executables

  const ELF_MAGIC: seq<byte> := [0x7F, 0x45, 0x4C, 0x46]

  /** A name denotes a loadable program when it is a regular file of a readable inode whose bytes
      begin with the ELF magic number. */
  predicate IsExecutable(img: Image, name: seq<byte>)
    requires ValidImage(img)
  {
    var d := Lookup(img, name);
    && d.Some?
    && d.value.fileType == FILE_TYPE
    && d.value.inode < DIR_ENTRIES
    && ELF_MAGIC <= Contents(img, img.inodes[d.value.inode])
  }

  /** The same read off the image: the first entry called so is of type 2, its inode is below 63, and
      its file starts with 7F 45 4C 46. */
  lemma ExecutableIff(img: Image, name: seq<byte>, i: nat)
    requires ValidImage(img) && IsText(name) && IsFirst(img, name, i)
    ensures IsExecutable(img, name) <==>
      && img.dentries[i].fileType == 2 && img.dentries[i].inode < 63
      && [0x7F, 0x45, 0x4C, 0x46] <= Contents(img, img.inodes[img.dentries[i].inode])
  {
    LookupIff(img, name);
  }

  const HEADER_READ := 4096

  /** Comparing the first four header bytes with the magic number. */
  lemma MagicCheck(header: seq<byte>, file: seq<byte>)
    requires |header| == HEADER_READ
    requires forall k :: 0 <= k < HEADER_READ ==> header[k] == At(file, k)
    ensures TextOf(ELF_MAGIC, 4) == TextOf(header, 4) <==> ELF_MAGIC <= file
  {
    TextOfStart(ELF_MAGIC, ELF_MAGIC);
    TextOfStart(header, ELF_MAGIC);
    if ELF_MAGIC <= header {
      assert At(file, 3) == header[3] != NUL;
      assert forall k :: 0 <= k < 4 ==> file[k] == header[k];
    }
  }

  /** _execute_executable_check; on success the header starts with the file's first bytes. */
  method ExecutableCheck(img: Image, name: seq<byte>) returns (ok: bool, header: seq<byte>)
    requires ValidImage(img) && IsText(name)
    ensures ok <==> IsExecutable(img, name)
    ensures ok ==> |header| == HEADER_READ
    ensures ok ==> forall k :: 0 <= k < HEADER_READ ==>
      header[k] == At(Contents(img, img.inodes[Lookup(img, name).value.inode]), k)
  {
    var buf := new byte[HEADER_READ](_ => NUL);
    header := [];
    var d := ReadDentryByName(img, name);
    if d.None? || d.value.fileType != FILE_TYPE {
      return false, header;
    }
    var r := ReadData(img, d.value.inode, 0, buf, 0, HEADER_READ);
    header := buf[..];
    var diff := Strncmp(ELF_MAGIC, header, 4);
    if d.value.inode >= DIR_ENTRIES {
      assert header[0] != ELF_MAGIC[0];
      CompareStep(ELF_MAGIC, header, 4);
      return diff == 0, header;
    }
    ghost var file := Contents(img, img.inodes[d.value.inode]);
    forall k | 0 <= k < HEADER_READ ensures header[k] == At(file, k) {
      if k < r {
        assert buf[0..r][k] == file[k];
      }
    }
    MagicCheck(header, file);
    return diff == 0, header;
  }

  /** _execute_user_program_loader: once the check has passed it cannot fail, and it loads exactly
      the recorded length. */
  method LoadProgram(img: Image, name: seq<byte>) returns (r: int, image: seq<byte>)
    requires ValidImage(img) && IsText(name) && IsExecutable(img, name)
    ensures r == 0
    ensures var ino := img.inodes[Lookup(img, name).value.inode];
      image == Contents(img, ino)[..ino.length]
  {
    var d := ReadDentryByName(img, name);
    var inode := if d.None? then -1 else d.value.inode;
    var size := img.inodes[d.value.inode].length;
    var memory := new byte[size](_ => NUL);
    var out := ReadData(img, inode, 0, memory, 0, size);
    image := memory[..];
    assert image == memory[0..out];
    r := if out == -1 then -1 else 0;
  }
}
