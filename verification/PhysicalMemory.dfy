/** Physical frames: a byte array cut into pages of 256 bytes, with a table of frame flags. */
module Physical {
  newtype Int8 = x: int | -0x80 <= x < 0x80

  const PAGE_SIZE := 256

  datatype Frame = Frame(frameNumber: int, address: int, valid: bool, dirty: bool)

  /** The bytes of page (or frame) `i` of a byte sequence. */
  ghost function Page(bytes: seq<Int8>, i: int): seq<Int8>
    requires 0 <= i && (i + 1) * PAGE_SIZE <= |bytes|
  {
    bytes[i * PAGE_SIZE..(i + 1) * PAGE_SIZE]
  }

  /** Copies page `i` of `src` over page `j` of `dst`. */
  method CopyPage(src: array<Int8>, i: int, dst: array<Int8>, j: int)
    requires src != dst
    requires 0 <= i && (i + 1) * PAGE_SIZE <= src.Length && 0 <= j && (j + 1) * PAGE_SIZE <= dst.Length
    modifies dst
    ensures Page(dst[..], j) == Page(src[..], i)
    ensures forall k :: 0 <= k && k != j && (k + 1) * PAGE_SIZE <= dst.Length ==>
                          Page(dst[..], k) == Page(old(dst[..]), k)
  {
    var offset := 0;
    while offset < PAGE_SIZE
      invariant 0 <= offset <= PAGE_SIZE
      invariant forall x :: j * PAGE_SIZE <= x < j * PAGE_SIZE + offset ==> dst[x] == src[x - j * PAGE_SIZE + i * PAGE_SIZE]
      invariant forall x :: 0 <= x < dst.Length && !(j * PAGE_SIZE <= x < (j + 1) * PAGE_SIZE) ==> dst[x] == old(dst[x])
    {
      dst[j * PAGE_SIZE + offset] := src[i * PAGE_SIZE + offset];
      offset := offset + 1;
    }
  }

  class PhysicalMemory {
    const memory: array<Int8>
    const frames: array<Frame>

    ghost predicate Valid()
      reads frames
      ensures Valid() ==> frames.Length * PAGE_SIZE <= memory.Length
    {
      && frames.Length * PAGE_SIZE <= memory.Length
      && forall f :: 0 <= f < frames.Length ==> frames[f].frameNumber == f && frames[f].address == f * PAGE_SIZE
    }

    constructor (memory: array<Int8>)
      ensures Valid() && this.memory == memory && fresh(frames)
      ensures frames.Length == memory.Length / PAGE_SIZE
      ensures forall f :: 0 <= f < frames.Length ==> !frames[f].valid && !frames[f].dirty
    {
      this.memory := memory;
      frames := new Frame[memory.Length / PAGE_SIZE](i => Frame(i, i * PAGE_SIZE, false, false));
    }

    method Read(frame: int, offset: int) returns (value: Int8)
      requires Valid() && 0 <= frame < frames.Length && 0 <= offset < PAGE_SIZE
      ensures value == Page(memory[..], frame)[offset]
    {
      value := memory[frames[frame].address + offset];
    }

    method Write(frame: int, offset: int, value: Int8)
      requires Valid() && 0 <= frame < frames.Length && 0 <= offset < PAGE_SIZE
      modifies memory, frames
      ensures Valid() && frames[..] == old(frames[..])[frame := old(frames[frame]).(dirty := true)]
      ensures Page(memory[..], frame) == Page(old(memory[..]), frame)[offset := value]
      ensures forall k :: 0 <= k && k != frame && (k + 1) * PAGE_SIZE <= memory.Length ==>
                            Page(memory[..], k) == Page(old(memory[..]), k)
    {
      memory[frames[frame].address + offset] := value;
      frames[frame] := frames[frame].(dirty := true);
    }
  }
}
