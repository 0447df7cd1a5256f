/**
 * The container file as the C code sees it through its FILE handle: a
 * sequence of bytes that fseek + fwrite overwrite or extend, fread reads and
 * ftruncate cuts.
 */
module Container {
  import opened Bytes

  class ArchiveFile {
    var image: seq<byte>

    constructor (init: seq<byte>)
      ensures image == init
    {
      image := init;
    }

    /** `fseek(f, off, SEEK_SET); fwrite(data, 1, |data|, f)`. */
    method Write(off: nat, data: seq<byte>)
      modifies this
      ensures image == WriteAt(old(image), off, data)
    {
      image := WriteAt(image, off, data);
    }

    /** `ftruncate(fileno(f), n)` to a length no larger than the file's. */
    method Truncate(n: nat)
      requires n <= |image|
      modifies this
      ensures image == old(image)[..n]
    {
      image := image[..n];
    }
  }
}
