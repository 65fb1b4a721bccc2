/** The NOR flash chip behind spn_fl512s: bytes are programmed one way and erased
    a 256 KiB section at a time. Driver operations succeed. */
module NorFlash {
  import opened Bytes

  /** SCH_SIZE_PER_SECTION */
  const SECTION := 256 * 1024

  /** The address of section `s`. */
  function SectionStart(s: nat): nat { s * 0x4_0000 }

  class Flash {
    const mem: array<byte>

    constructor (sections: nat)
      ensures fresh(mem) && mem.Length == SectionStart(sections)
      ensures IsErased(mem[..], 0, SectionStart(sections))
    {
      mem := new byte[SectionStart(sections)](_ => ERASED);
    }

    method Read(at: nat, len: nat) returns (d: seq<byte>)
      requires at + len <= mem.Length
      ensures d == mem[..][at..at + len]
    {
      d := mem[at..at + len];
    }

    /** A driver write; `clean` says whether it kept the NOR discipline of writing erased bytes only. */
    method Write(at: nat, d: seq<byte>) returns (clean: bool)
      requires at + |d| <= mem.Length
      modifies mem
      ensures Written(old(mem[..]), mem[..], at, d)
      ensures clean <==> IsErased(old(mem[..]), at, |d|)
    {
      clean := true;
      for i := 0 to |d|
        invariant forall k :: 0 <= k < at || at + i <= k < mem.Length ==> mem[k] == old(mem[k])
        invariant forall k :: at <= k < at + i && old(mem[k]) == ERASED ==> mem[k] == d[k - at]
        invariant clean <==> forall k :: at <= k < at + i ==> old(mem[k]) == ERASED
      {
        if mem[at + i] == ERASED {
          mem[at + i] := d[i];
        } else {
          clean := false;
          mem[at + i] := *;
        }
      }
    }

    /** Programming is only meaningful on erased bytes, so every caller must prove that. */
    method Program(at: nat, d: seq<byte>)
      requires at + |d| <= mem.Length
      requires IsErased(mem[..], at, |d|)
      modifies mem
      ensures mem[..] == Splice(old(mem[..]), at, d)
    {
      ghost var was := mem[..];
      var _ := Write(at, d);
      WrittenOnErased(was, mem[..], at, d);
    }

    method EraseBlock(at: nat)
      requires at % 0x4_0000 == 0 && at + SECTION <= mem.Length
      modifies mem
      ensures mem[..] == Splice(old(mem[..]), at, Fill(SECTION))
    {
      forall i | at <= i < at + SECTION {
        mem[i] := ERASED;
      }
    }
  }
}
