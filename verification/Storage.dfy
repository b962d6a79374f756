/** The storage medium: a flat array of bytes, in memory. */
module Storage {
  import opened Bytes
  import opened Wrappers

  /** An in-memory medium. Its `Write` overwrites bytes, although on real flash programming can only
      clear bits; `nor` is the image that a device which does the latter would hold, and `Valid`
      says that the two have not come apart.

      `history` lists the images the medium went through since `Mark` was last called, one per
      write or erase. A power cut leaves one of them behind. */
  class RamStorage {
    var mem: seq<byte>
    ghost var nor: seq<byte>
    ghost var history: seq<seq<byte>>

    ghost predicate Tracks()
      reads this
    {
      && |nor| == |mem|
      && |history| > 0
      && history[|history| - 1] == mem
    }

    ghost predicate Valid()
      reads this
    {
      Tracks() && nor == mem
    }

    constructor New(capacity: u32)
      ensures Valid() && mem == Fill(capacity) && history == [mem]
    {
      mem := Fill(capacity);
      nor := Fill(capacity);
      history := [Fill(capacity)];
    }

    constructor FromBytes(bytes: seq<byte>)
      ensures Valid() && mem == bytes && history == [mem]
    {
      mem := bytes;
      nor := bytes;
      history := [bytes];
    }

    method Read(addr: u32, n: nat) returns (r: Result<seq<byte>>)
      ensures r == if addr + n <= |mem| then Ok(mem[addr..addr + n]) else Err(ReadErr)
    {
      if addr + n > |mem| {
        return Err(ReadErr);
      }
      r := Ok(mem[addr..addr + n]);
    }

    /** Accepts any bytes; both images stay the same if and only if no bit is set again. */
    method Write(addr: u32, buf: seq<byte>) returns (r: Outcome)
      requires Tracks()
      modifies this
      ensures Tracks()
      ensures addr + |buf| <= |old(mem)| ==>
                && r == Done
                && mem == Overwrite(old(mem), addr, buf)
                && history == old(history) + [mem]
      ensures addr + |buf| > |old(mem)| ==>
                r == Failed(WriteErr) && mem == old(mem) && history == old(history)
      ensures old(Valid()) ==> (Valid() <==> addr + |buf| > |old(mem)| || OnlyClears(old(mem), addr, buf))
    {
      if addr + |buf| > |mem| {
        return Failed(WriteErr);
      }
      ProgramIsOverwrite(mem, addr, buf);
      nor := Program(nor, addr, buf);
      mem := mem[..addr] + buf + mem[addr + |buf|..];
      history := history + [mem];
      r := Done;
    }

    method Erase(addr: u32, size: u32) returns (r: Outcome)
      requires Tracks()
      modifies this
      ensures Tracks() && (old(Valid()) ==> Valid())
      ensures addr + size <= |old(mem)| ==>
                && r == Done
                && mem == Overwrite(old(mem), addr, Fill(size))
                && history == old(history) + [mem]
      ensures addr + size > |old(mem)| ==>
                r == Failed(EraseErr) && mem == old(mem) && history == old(history)
    {
      if addr + size > |mem| {
        return Failed(EraseErr);
      }
      nor := Overwrite(nor, addr, Fill(size));
      mem := mem[..addr] + Fill(size) + mem[addr + size..];
      history := history + [mem];
      r := Done;
    }

    /** Forget the past images. */
    ghost method Mark()
      requires Tracks()
      modifies `history
      ensures Tracks() && (old(Valid()) ==> Valid()) && history == [mem]
    {
      history := [mem];
    }
  }
}
