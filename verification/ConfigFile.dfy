/** The temporary file in which the device configuration is saved, and its chunked read-back. */
module ConfigFile {
  import opened Basics

  const CHUNK: nat := 512

  /** A file with a cursor. */
  class TmpFile {
    var content: bytes
    var pos: nat

    constructor ()
      ensures content == [] && pos == 0
    {
      content, pos := [], 0;
    }

    /** Writes at the cursor, overwriting what is there. */
    method Write(data: bytes)
      requires pos <= |content|
      modifies this
      ensures content == old(content[..pos]) + data
                         + (if old(pos) + |data| <= |old(content)| then old(content)[old(pos) + |data|..] else [])
      ensures pos == old(pos) + |data|
    {
      var tail := if pos + |data| <= |content| then content[pos + |data|..] else [];
      content := content[..pos] + data + tail;
      pos := pos + |data|;
    }

    method Rewind()
      modifies this`pos
      ensures pos == 0
    {
      pos := 0;
    }

    /** Reads one item of `n` bytes into the start of `buffer`; `ok` tells whether a whole item was left. */
    method Read(buffer: array<uint8>, n: nat) returns (ok: bool)
      requires n <= buffer.Length && pos <= |content|
      modifies this`pos, buffer
      ensures ok <==> old(pos) + n <= |content|
      ensures ok ==> pos == old(pos) + n && buffer[..n] == content[old(pos)..old(pos) + n]
      ensures !ok ==> pos == |content|
    {
      var start := pos;
      var available := if pos + n <= |content| then n else |content| - pos;
      for i := 0 to available
        invariant forall j :: 0 <= j < i ==> buffer[j] == content[start + j]
      {
        buffer[i] := content[start + i];
      }
      pos := start + available;
      return available == n;
    }
  }

  class ConfigFile {
    var fp: TmpFile?
    var size: nat

    ghost predicate Valid()
      reads this, fp
    {
      fp != null ==> size == |fp.content| && fp.pos <= size
    }

    /** The saved bytes: nothing when there is no file. */
    ghost function Saved(): bytes
      reads this, fp
    {
      if fp == null then [] else fp.content
    }

    constructor ()
      ensures Valid() && fp == null
    {
      fp, size := null, 0;
    }

    /** `tmpfileOk` says whether the operating system delivers a temporary file. */
    method ChangeConfig(deviceConfig: bytes, tmpfileOk: bool)
      requires Valid()
      modifies this
      ensures Valid() && (fp == null || fresh(fp))
      ensures fp != null <==> tmpfileOk
      ensures Saved() == if tmpfileOk then deviceConfig else []
    {
      fp := null;
      if !tmpfileOk { return; }
      fp := new TmpFile();
      if |deviceConfig| > 0 { fp.Write(deviceConfig); }
      size := |deviceConfig|;
    }

    /** Appends the saved bytes to `prefix`, in chunks of 512 bytes and a remainder.  The file keeps its
        content, so the next read delivers the same bytes. */
    method ReadConfig(prefix: bytes) returns (deviceConfig: bytes)
      requires Valid()
      modifies fp
      ensures Valid() && Saved() == old(Saved())
      ensures deviceConfig == prefix + Saved()
    {
      deviceConfig := prefix;
      if fp == null || size == 0 { return; }
      fp.Rewind();
      var buffer := new uint8[CHUNK];
      var iters := size / CHUNK;
      var remainder := size - iters * CHUNK;
      var i := 0;
      while i < iters
        invariant i <= iters && Valid() && fp.content == old(fp.content) && fp.pos == i * CHUNK
        invariant deviceConfig == prefix + fp.content[..i * CHUNK]
      {
        var ok := fp.Read(buffer, CHUNK);
        if !ok { break; }
        deviceConfig := deviceConfig + buffer[..CHUNK];
        i := i + 1;
      }
      if i != iters { return; }
      if remainder != 0 {
        var ok := fp.Read(buffer, remainder);
        if !ok { return; }
      }
      deviceConfig := deviceConfig + buffer[..remainder];
    }
  }
}
