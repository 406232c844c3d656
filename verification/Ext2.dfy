/** ext2_pread of fs/ext2.c, in the 32-bit arithmetic it is written in. The block
    size is 1024, the only one ext2_get_super accepts. */
module Ext2 {
  import opened Common

  const BLOCK: nat := 1024
  const NDIR: nat := 12

  type Byte = n: nat | n < 256

  type Disk = map<nat, seq<Byte>>  // the blocks that can be read

  /** A regular file: its size and the numbers of its first blocks. */
  datatype File = File(size: nat, block: seq<nat>) {
    predicate Ok() { size < TWO32 && |block| >= NDIR }
  }

  /** Block x of the file can be read. */
  predicate Readable(disk: Disk, f: File, x: nat) {
    x < |f.block| && f.block[x] in disk && |disk[f.block[x]]| == BLOCK
  }

  predicate DiskOk(disk: Disk) { forall b :: b in disk ==> |disk[b]| == BLOCK }

  function ByteAt(disk: Disk, f: File, pos: nat): Byte
    requires Readable(disk, f, pos / BLOCK)
  {
    disk[f.block[pos / BLOCK]][pos % BLOCK]
  }

  /** Bytes read, a failed assertion, or a copy longer than the block it is taken from. */
  datatype Outcome = Read(copied: nat) | Panic | Overrun

  /** `len` after the test against the size. */
  function Clamped(f: File, len: nat, off: nat): nat
    requires f.size < TWO32 && len < TWO32 && off < TWO32
  {
    if (off + len) % TWO32 > f.size then (f.size - off) % TWO32 else len
  }

  function LastBlock(f: File, len: nat, off: nat): nat
    requires f.size < TWO32 && len < TWO32 && off < TWO32
  {
    (off + Clamped(f, len, off)) % TWO32 / BLOCK
  }

  /** The arithmetic of the copy length goes wrong: the sum of offset in the block and length wraps. */
  predicate Wraps(f: File, len: nat, off: nat)
    requires f.size < TWO32 && len < TWO32 && off < TWO32
  {
    off / BLOCK <= LastBlock(f, len, off) && off % BLOCK + Clamped(f, len, off) >= TWO32
  }

  /** What a reader wants: the part of [off, off+len) inside the file. */
  function Wanted(f: File, len: nat, off: nat): nat {
    if off >= f.size then 0 else if off + len > f.size then f.size - off else len
  }

  /** When nothing wraps the clamp is the right one; otherwise no block is read at all. */
  lemma ClampIsWanted(f: File, len: nat, off: nat)
    requires f.size < TWO32 && len < TWO32 && off < TWO32 && !Wraps(f, len, off)
    ensures off <= f.size && off + len < TWO32 ==> Clamped(f, len, off) == Wanted(f, len, off)
    ensures !(off <= f.size && off + len < TWO32) ==> off / BLOCK > LastBlock(f, len, off)
    ensures off <= f.size && off + len < TWO32 ==>
              off / BLOCK <= LastBlock(f, len, off) && off + Clamped(f, len, off) < TWO32
  {
  }

  /** Reads of files smaller than 4 GB that start inside the file never wrap. */
  lemma OrdinaryReadsDoNotWrap(f: File, len: nat, off: nat)
    requires f.size < TWO32 && len < TWO32 && off <= f.size && off + len < TWO32
    ensures !Wraps(f, len, off)
  {
  }

  /** Past the end of the file, inside its last block, a read always goes wrong. */
  lemma ReadPastEndWraps(f: File, len: nat, off: nat)
    requires f.size < TWO32 && f.size < off && off + len < TWO32 && off / BLOCK == f.size / BLOCK
    ensures Wraps(f, len, off)
  {
  }

  /** For every read, exactly when: off lies past the end of the file inside its last block, or the end of
      the read passes 2^32 and comes round to the block of off. */
  lemma WrapsExact(f: File, len: nat, off: nat)
    requires f.size < TWO32 && len < TWO32 && off < TWO32
    ensures Wraps(f, len, off) <==>
              if (off + len) % TWO32 > f.size then off > f.size && off / BLOCK == f.size / BLOCK
              else off + len >= TWO32 && (off + len - TWO32) / BLOCK == off / BLOCK
  {
  }

  /** b is the byte of the file at pos. */
  predicate ByteIs(disk: Disk, f: File, pos: nat, b: Byte) {
    Readable(disk, f, pos / BLOCK) && b == ByteAt(disk, f, pos)
  }

  /** The first n bytes of the buffer hold the file from off on. */
  predicate Holds(buf: seq<Byte>, disk: Disk, f: File, off: nat, n: nat) {
    n <= |buf| && forall j {:trigger buf[j]} :: 0 <= j < n ==> ByteIs(disk, f, off + j, buf[j])
  }

  /** s with n bytes of src, from place `from` on, written over it at place `at`. */
  function Spliced(s: seq<Byte>, src: seq<Byte>, at: nat, from: nat, n: nat): (r: seq<Byte>)
    requires at + n <= |s| && from + n <= |src|
    ensures |r| == |s|
  {
    s[..at] + src[from..from + n] + s[at + n..]
  }

  method CopyBlock(buf: array<Byte>, at: nat, src: seq<Byte>, from: nat, n: nat)
    requires at + n <= buf.Length && from + n <= |src|
    modifies buf
    ensures buf[..] == Spliced(old(buf[..]), src, at, from, n)
  {
    var i := 0;
    ghost var was := buf[..];
    SpliceNone(was, src, at, from);
    while i < n
      invariant 0 <= i <= n
      invariant buf[..] == Spliced(was, src, at, from, i)
    {
      SpliceStep(was, src, at, from, i);
      ghost var now := buf[..];
      buf[at + i] := src[from + i];
      assert buf[..] == now[at + i := src[from + i]];
      i := i + 1;
    }
  }

  lemma SpliceStep(s: seq<Byte>, src: seq<Byte>, at: nat, from: nat, i: nat)
    requires at + i < |s| && from + i < |src|
    ensures Spliced(s, src, at, from, i)[at + i := src[from + i]] == Spliced(s, src, at, from, i + 1)
  {
    assert src[from..from + (i + 1)] == src[from..from + i] + [src[from + i]];
  }

  lemma SpliceNone(s: seq<Byte>, src: seq<Byte>, at: nat, from: nat)
    requires at <= |s| && from <= |src|
    ensures Spliced(s, src, at, from, 0) == s
  {
  }

  /** One more piece of the file behind what is there already. */
  lemma Extends(disk: Disk, f: File, was: seq<Byte>, now: seq<Byte>, off: nat, n: nat, x: nat, c: nat)
    requires Holds(was, disk, f, off, n) && Readable(disk, f, x) && n + c <= |was|
    requires (off + n) / BLOCK == x && (off + n) % BLOCK + c <= BLOCK
    requires now == was[..n] + disk[f.block[x]][(off + n) % BLOCK..(off + n) % BLOCK + c] + was[n + c..]
    ensures Holds(now, disk, f, off, n + c)
  {
    forall j | 0 <= j < n + c
      ensures ByteIs(disk, f, off + j, now[j])
    {
      if j < n { assert now[j] == was[j]; } else {
        assert (off + j) / BLOCK == x && (off + j) % BLOCK == (off + n) % BLOCK + (j - n);
      }
    }
  }

  /** One turn of the loop: the part of block x that is asked for goes behind what is there. */
  method CopyPiece(disk: Disk, f: File, buf: array<Byte>, off0: nat, copied: nat, x: nat, clen: nat)
    requires Readable(disk, f, x) && Holds(buf[..], disk, f, off0, copied) && copied + clen <= buf.Length
    requires (off0 + copied) / BLOCK == x && (off0 + copied) % BLOCK + clen <= BLOCK
    modifies buf
    ensures Holds(buf[..], disk, f, off0, copied + clen) && buf[copied + clen..] == old(buf[copied..])[clen..]
  {
    ghost var was := buf[..];
    CopyBlock(buf, copied, disk[f.block[x]], (off0 + copied) % BLOCK, clen);
    Extends(disk, f, was, buf[..], off0, copied, x, clen);
    assert buf[copied + clen..] == buf[..][copied + clen..] == was[copied + clen..];
  }

  lemma TailOf(s: seq<Byte>, n: nat, c: nat)
    requires n + c <= |s|
    ensures s[n..][c..] == s[n + c..]
  {
  }

  /** Of `want` bytes `copied` are there, and if that is not all, the next block cannot be read. */
  ghost predicate Got(disk: Disk, f: File, buf: seq<Byte>, off: nat, want: nat, copied: nat) {
    copied <= want && Holds(buf, disk, f, off, copied) && (copied < want ==> !Readable(disk, f, (off + copied) / BLOCK))
  }

  /** The loop of ext2_pread, from block `first` to block `last`. */
  method CopyBlocks(disk: Disk, f: File, buf: array<Byte>, len0: nat, off0: nat, last: nat) returns (r: Outcome)
    requires DiskOk(disk) && f.Ok() && len0 < TWO32 && last < NDIR
    requires off0 / BLOCK > last || off0 % BLOCK + len0 >= TWO32
             || (last == (off0 + len0) / BLOCK && len0 <= buf.Length)
    modifies buf
    ensures !r.Panic?
    ensures r.Overrun? <==> off0 / BLOCK <= last && off0 % BLOCK + len0 >= TWO32 && Readable(disk, f, off0 / BLOCK)
    ensures r.Read? && off0 / BLOCK > last ==> r.copied == 0
    ensures r.Read? && off0 / BLOCK <= last && off0 % BLOCK + len0 >= TWO32 ==> r.copied == 0
    ensures r.Read? && off0 / BLOCK <= last && off0 % BLOCK + len0 < TWO32 ==>
            Got(disk, f, buf[..], off0, len0, r.copied)
    ensures r.Read? ==> r.copied <= buf.Length && buf[r.copied..] == old(buf[..])[r.copied..]
  {
    var len: nat, off := len0, off0;
    var first := off / BLOCK;
    ghost var wraps := off % BLOCK + len >= TWO32;
    var copied, x := 0, first;
    while x <= last
      invariant first <= x <= if first <= last then last + 1 else first
      invariant x == first ==> off == off0 && copied == 0 && len == len0
      invariant x > first ==> !wraps && first <= last
      invariant copied + len == len0 && off == off0 + copied && 0 <= copied
      invariant x > first && len > 0 ==> off == x * BLOCK
      invariant copied <= buf.Length && Holds(buf[..], disk, f, off0, copied)
      invariant buf[copied..] == old(buf[..])[copied..]
      decreases last + 1 - x
    {
      var coff := off % BLOCK;
      var clen := if (coff + len) % TWO32 > BLOCK then BLOCK - coff else len;
      if clen == 0 {
        break;
      }
      assert off / BLOCK == x;
      if f.block[x] !in disk {
        return Read(copied);
      }
      assert Readable(disk, f, x);
      if clen > BLOCK - coff {
        return Overrun;
      }
      CopyPiece(disk, f, buf, off0, copied, x, clen);
      TailOf(old(buf[..]), copied, clen);
      copied := copied + clen;
      len := len - clen;
      off := off + clen;
      x := x + 1;
    }
    r := Read(copied);
  }

  /** ext2_pread into a kernel buffer. The slice that is wanted, or, if a block
      cannot be read, all of it before that block. Beyond, the buffer is untouched. */
  method Pread(disk: Disk, f: File, buf: array<Byte>, len0: nat, off: nat) returns (r: Outcome)
    requires DiskOk(disk) && f.Ok() && len0 < TWO32 && off < TWO32 && len0 <= buf.Length
    modifies buf
    ensures r.Panic? <==> LastBlock(f, len0, off) >= NDIR
    ensures r.Overrun? <==> !r.Panic? && Wraps(f, len0, off) && Readable(disk, f, off / BLOCK)
    ensures r.Read? && off <= f.size && off + len0 < TWO32 ==>
            Got(disk, f, buf[..], off, Wanted(f, len0, off), r.copied)
    ensures r.Read? && !(off <= f.size && off + len0 < TWO32) ==> r.copied == 0
    ensures r.Read? ==> r.copied <= buf.Length && buf[r.copied..] == old(buf[..])[r.copied..]
  {
    var len := len0;
    if (off + len) % TWO32 > f.size {
      len := (f.size - off) % TWO32;
    }
    var last := (off + len) % TWO32 / BLOCK;
    if last >= NDIR {
      return Panic;
    }
    if !Wraps(f, len0, off) { ClampIsWanted(f, len0, off); }
    if off <= f.size && off + len0 < TWO32 { OrdinaryReadsDoNotWrap(f, len0, off); }
    r := CopyBlocks(disk, f, buf, len, off, last);
  }
}
