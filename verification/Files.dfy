/** A file, or any other source, read in blocks of 1024 bytes. */
module Files {
  import opened Octets
  import opened Kernel

  const BLOCK: nat := 1024

  /** Is the file read to its end, without an error? */
  predicate ReadThrough(file: Incoming)
    decreases |file.data|
  {
    var (file1, n) := SysRead(file, BLOCK);
    n != -1 && (n == 0 || ReadThrough(file1))
  }

  /** `::read(fd, buf, 1024)`; the buffer is taken with the byte behind it, which is never written. */
  method ReadBlock(file: Incoming, buf: array<byte>) returns (rest: Incoming, rcnt: int)
    requires buf.Length == BLOCK + 1
    modifies buf
    ensures (rest, rcnt) == SysRead(file, BLOCK) && rcnt <= BLOCK
    ensures rcnt <= 0 ==> buf[..] == old(buf[..]) && rest.data == file.data
    ensures 0 < rcnt ==>
              && rcnt <= |file.data| && |rest.data| < |file.data|
              && buf[..] == file.data[..rcnt] + old(buf[..])[rcnt..]
  {
    rest, rcnt := SysRead(file, BLOCK).0, SysRead(file, BLOCK).1;
    if 0 < rcnt {
      forall i | 0 <= i < rcnt {
        buf[i] := file.data[i];
      }
    }
  }
}
