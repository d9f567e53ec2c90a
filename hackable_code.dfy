/**
  * Hackable code regions and the patch operations on them.
  *
  * Addresses are offsets into one memory image that begins at address 0, so
  * address 0 stands for the null pointer. The assembler and the disassembler
  * are collaborators whose code is not part of this model: they are passed in
  * as functions. The memory writer is modelled as an in-place overwrite of a
  * range of the image.
  */
module Hackable {
  import opened Wrappers
  import opened Tags
  import opened Markers

  const NullPointer: nat := 0

  /** The single-byte no-operation instruction used to pad replacement code. */
  const Nop: Byte := 0x90

  /** What the assembler reports for a piece of assembly text. */
  datatype CompileResult = CompileResult(hasError: bool, errorMessage: string, compiledBytes: seq<Byte>, byteCount: nat)
  {
    /** A successful compilation reports the number of bytes it produced. */
    predicate WellFormed()
    {
      hasError || byteCount == |compiledBytes|
    }
  }

  /** `n` no-operation bytes. */
  function Nops(n: nat): (r: seq<Byte>)
    ensures |r| == n && forall i :: 0 <= i < n ==> r[i] == Nop
  {
    seq(n, _ => Nop)
  }

  /** The image after the bytes `src` are written at `dest`. */
  function Overwrite(mem: seq<Byte>, dest: nat, src: seq<Byte>): (r: seq<Byte>)
    requires dest + |src| <= |mem|
    ensures |r| == |mem|
    ensures r[dest..dest + |src|] == src
    ensures forall i :: 0 <= i < |mem| && !(dest <= i < dest + |src|) ==> r[i] == mem[i]
  {
    mem[..dest] + src + mem[dest + |src|..]
  }

  /** Writing nothing leaves the image as it was. */
  lemma OverwriteNothing(mem: seq<Byte>, dest: nat)
    requires dest <= |mem|
    ensures Overwrite(mem, dest, []) == mem
  {
  }

  /** The memory writer: copies `src` into the image at `dest`, byte by byte. */
  method WriteMemory(mem: array<Byte>, dest: nat, src: seq<Byte>)
    requires dest + |src| <= mem.Length
    modifies mem
    ensures mem[..] == Overwrite(old(mem[..]), dest, src)
  {
    var i := 0;
    while i < |src|
      invariant 0 <= i <= |src|
      invariant forall k :: 0 <= k < mem.Length && !(dest <= k < dest + i) ==> mem[k] == old(mem[k])
      invariant forall k :: 0 <= k < i ==> mem[dest + k] == src[k]
    {
      mem[dest + i] := src[i];
      i := i + 1;
    }
    ghost var expected := Overwrite(old(mem[..]), dest, src);
    forall k | 0 <= k < mem.Length
      ensures mem[k] == expected[k]
    {
      if dest <= k < dest + |src| {
        assert mem[dest + (k - dest)] == src[k - dest];
        assert expected[k] == expected[dest..dest + |src|][k - dest];
      }
    }
  }

  /**
    * One hackable region: the window `[codePointer, codeEndPointer)` of the
    * image, its original length, the copy of its original bytes, and the
    * original and current assembly text. Only the current text ever changes.
    */
  class HackableCode {
    const codePointer: nat
    const codeEndPointer: nat
    const originalCodeLength: int
    const originalCodeCopy: seq<Byte>
    const originalAssemblyString: string
    var assemblyString: string

    /**
      * What construction establishes for good: the length is the window's
      * size, and the copy of the original bytes is left empty.
      */
    ghost predicate Valid()
    {
      originalCodeLength == codeEndPointer - codePointer && originalCodeCopy == []
    }

    constructor (mem: array<Byte>, codeStart: nat, codeEnd: nat, disassemble: (seq<Byte>, nat, int) -> string)
      ensures Valid()
      ensures codePointer == codeStart && codeEndPointer == codeEnd
      ensures originalCodeLength == codeEnd - codeStart
      ensures originalAssemblyString == disassemble(mem[..], codeStart, codeEnd - codeStart)
      ensures assemblyString == originalAssemblyString
    {
      codePointer := codeStart;
      codeEndPointer := codeEnd;
      originalCodeLength := codeEnd - codeStart;
      originalCodeCopy := [];
      originalAssemblyString := disassemble(mem[..], codeStart, codeEnd - codeStart);
      new;
      assemblyString := originalAssemblyString;
    }

    method GetAssemblyString() returns (s: string)
      ensures s == assemblyString
    {
      s := assemblyString;
    }

    method GetOriginalAssemblyString() returns (s: string)
      ensures s == originalAssemblyString
    {
      s := originalAssemblyString;
    }

    method GetPointer() returns (p: nat)
      ensures p == codePointer
    {
      p := codePointer;
    }

    method GetOriginalLength() returns (n: int)
      requires Valid()
      ensures n == originalCodeLength == codeEndPointer - codePointer
    {
      n := originalCodeLength;
    }

    /**
      * Records `newAssembly` as the current text, then assembles it at the
      * region's address; if that succeeds and fits the original window, pads
      * it with no-operations to the window's length and writes it over the
      * window.
      */
    method ApplyCustomCode(mem: array<Byte>, newAssembly: string, assemble: (string, nat) -> CompileResult)
      returns (activated: bool)
      requires Valid()
      requires codePointer != NullPointer ==> assemble(newAssembly, codePointer).WellFormed() && codeEndPointer <= mem.Length
      modifies this, mem
      ensures assemblyString == newAssembly
      ensures activated <==>
        (codePointer != NullPointer
         && !assemble(newAssembly, codePointer).hasError
         && assemble(newAssembly, codePointer).byteCount <= originalCodeLength)
      ensures !activated ==> mem[..] == old(mem[..])
      ensures activated ==>
        mem[..] == Overwrite(old(mem[..]), codePointer,
          assemble(newAssembly, codePointer).compiledBytes + Nops(originalCodeLength - assemble(newAssembly, codePointer).byteCount))
    {
      assemblyString := newAssembly;

      if codePointer == NullPointer {
        return false;
      }

      var compileResult := assemble(assemblyString, codePointer);

      if compileResult.hasError || compileResult.byteCount > originalCodeLength {
        return false;
      }

      var unfilledBytes := originalCodeLength - compileResult.byteCount;
      var compiledBytes := compileResult.compiledBytes;

      var index := 0;
      while index < unfilledBytes
        invariant 0 <= index <= unfilledBytes
        invariant compiledBytes == compileResult.compiledBytes + Nops(index)
      {
        compiledBytes := compiledBytes + [Nop];
        index := index + 1;
      }

      WriteMemory(mem, codePointer, compiledBytes);
      return true;
    }

    /**
      * Writes the copy of the original bytes back over the region. The copy
      * is never filled in, so nothing is written.
      */
    method RestoreState(mem: array<Byte>)
      requires Valid() && codePointer + |originalCodeCopy| <= mem.Length
      modifies mem
      ensures mem[..] == Overwrite(old(mem[..]), codePointer, originalCodeCopy)
      ensures mem[..] == old(mem[..])
    {
      WriteMemory(mem, codePointer, originalCodeCopy);
      OverwriteNothing(old(mem[..]), codePointer);
    }
  }

  /**
    * Finds the regions of the function at `functionStart` (through the
    * cache) and makes one fresh region object per marker, in marker order.
    */
  method ParseHackables(cache: MarkerCache, mem: array<Byte>, functionStart: nat, resolve: nat -> nat,
                        disassemble: (seq<Byte>, nat, int) -> string, ghost stop: nat)
    returns (regions: seq<HackableCode>, ghost markers: seq<Marker>)
    requires functionStart !in cache.entries ==> resolve(functionStart) <= stop && MatchesAt(mem[..], stop, StopSearch)
    modifies cache
    ensures functionStart in cache.entries && markers == cache.entries[functionStart]
    ensures functionStart in old(cache.entries) ==> markers == old(cache.entries)[functionStart]
    ensures functionStart !in old(cache.entries) ==> markers == ScanFrom(mem[..], resolve(functionStart), None, stop)
    ensures old(cache.Coherent(mem[..], resolve)) ==>
      cache.Coherent(mem[..], resolve) && ScansTo(mem[..], resolve(functionStart), markers)
    ensures |regions| == |markers|
    ensures forall i :: 0 <= i < |regions| ==>
      fresh(regions[i]) && regions[i].Valid()
      && regions[i].codePointer == markers[i].start && regions[i].codeEndPointer == markers[i].end
      && regions[i].originalAssemblyString == disassemble(mem[..], markers[i].start, markers[i].end - markers[i].start)
      && regions[i].assemblyString == regions[i].originalAssemblyString
  {
    var markerList := cache.ParseHackableMarkers(mem, functionStart, resolve, stop);
    markers := markerList;
    ghost var entries := cache.entries;
    regions := [];
    var i := 0;
    while i < |markerList|
      invariant cache.entries == entries
      invariant 0 <= i <= |markerList| && |regions| == i
      invariant forall k :: 0 <= k < i ==>
        fresh(regions[k]) && regions[k].Valid()
        && regions[k].codePointer == markerList[k].start && regions[k].codeEndPointer == markerList[k].end
        && regions[k].originalAssemblyString == disassemble(mem[..], markerList[k].start, markerList[k].end - markerList[k].start)
        && regions[k].assemblyString == regions[k].originalAssemblyString
    {
      var marker := markerList[i];
      var region := new HackableCode(mem, marker.start, marker.end, disassemble);
      regions := regions + [region];
      i := i + 1;
    }
  }

  /** The entry point: the regions of the function at `functionStart`. */
  method Create(cache: MarkerCache, mem: array<Byte>, functionStart: nat, resolve: nat -> nat,
                disassemble: (seq<Byte>, nat, int) -> string, ghost stop: nat)
    returns (regions: seq<HackableCode>, ghost markers: seq<Marker>)
    requires functionStart !in cache.entries ==> resolve(functionStart) <= stop && MatchesAt(mem[..], stop, StopSearch)
    modifies cache
    ensures functionStart in cache.entries && markers == cache.entries[functionStart]
    ensures functionStart in old(cache.entries) ==> markers == old(cache.entries)[functionStart]
    ensures functionStart !in old(cache.entries) ==> markers == ScanFrom(mem[..], resolve(functionStart), None, stop)
    ensures old(cache.Coherent(mem[..], resolve)) ==>
      cache.Coherent(mem[..], resolve) && ScansTo(mem[..], resolve(functionStart), markers)
    ensures |regions| == |markers|
    ensures forall i :: 0 <= i < |regions| ==>
      fresh(regions[i]) && regions[i].Valid()
      && regions[i].codePointer == markers[i].start && regions[i].codeEndPointer == markers[i].end
      && regions[i].originalAssemblyString == disassemble(mem[..], markers[i].start, markers[i].end - markers[i].start)
      && regions[i].assemblyString == regions[i].originalAssemblyString
  {
    regions, markers := ParseHackables(cache, mem, functionStart, resolve, disassemble, stop);
  }

  /**
    * Regions found by a scan are safe to patch: their address is never the
    * null pointer, their length is not negative, and their window lies
    * between their Start and End tags.
    */
  lemma ScannedRegionsPatchable(mem: seq<Byte>, b: nat, ms: seq<Marker>)
    requires ScansTo(mem, b, ms)
    ensures forall m :: m in ms ==>
      NullPointer < TagSize <= m.start <= m.end && MatchesAt(mem, m.start - TagSize, Start) && MatchesAt(mem, m.end, End)
  {
    var stop :| b <= stop && MatchesAt(mem, stop, StopSearch) && ms == ScanFrom(mem, b, None, stop);
    ScanWellFormed(mem, b, None, stop);
  }

  /**
    * Patching a region's window with bytes of the window's length leaves
    * the Start tag before it and the End tag after it intact.
    */
  lemma PatchKeepsTags(mem: seq<Byte>, m: Marker, patch: seq<Byte>)
    requires TagSize <= m.start <= m.end && MatchesAt(mem, m.start - TagSize, Start) && MatchesAt(mem, m.end, End)
    requires |patch| == m.end - m.start
    ensures MatchesAt(Overwrite(mem, m.start, patch), m.start - TagSize, Start)
    ensures MatchesAt(Overwrite(mem, m.start, patch), m.end, End)
  {
    var r := Overwrite(mem, m.start, patch);
    forall i | 0 <= i < TagSize
      ensures r[m.start - TagSize + i] == Signature(Start)[i] && r[m.end + i] == Signature(End)[i]
    {
    }
  }
}
