/**
  * The three tag signatures that the build embeds in the instruction stream
  * around a hackable region, and what it means for one of them to occur at
  * an address of the memory image.
  */
module Tags {
  import opened Wrappers

  /** One byte of the memory image. */
  newtype Byte = x: int | 0 <= x < 256

  /** Every tag has this many bytes. */
  const TagSize: nat := 10

  const StartTagSignature: seq<Byte> := [0x57, 0x6A, 0x45, 0xBF, 0xDE, 0xC0, 0xED, 0xFE, 0x5F, 0x5F]
  const EndTagSignature: seq<Byte> := [0x56, 0x6A, 0x45, 0xBE, 0xDE, 0xC0, 0xAD, 0xDE, 0x5E, 0x5E]
  const StopSearchTagSignature: seq<Byte> := [0x52, 0x6A, 0x45, 0xBA, 0x5E, 0xEA, 0x15, 0x0D, 0x5A, 0x5A]

  datatype Tag = Start | End | StopSearch

  function Signature(t: Tag): (sig: seq<Byte>)
    ensures |sig| == TagSize
  {
    match t
    case Start => StartTagSignature
    case End => EndTagSignature
    case StopSearch => StopSearchTagSignature
  }

  /**
    * Byte `i` of the signature of `t` (`targetArray[signatureIndex]` in the
    * matcher), spelled out position by position. The signature constants
    * above remain the definition of the tags; this table is a second
    * spelling of them, kept because indexing a sequence display at an
    * unknown position is expensive for the verifier, while a comparison
    * chain is not. `SignatureByteAgrees` proves the two spellings equal.
    */
  function SignatureByte(t: Tag, i: nat): Byte
    requires i < TagSize
  {
    match t
    case Start =>
      if i == 0 then 0x57
      else if i == 1 then 0x6A
      else if i == 2 then 0x45
      else if i == 3 then 0xBF
      else if i == 4 then 0xDE
      else if i == 5 then 0xC0
      else if i == 6 then 0xED
      else if i == 7 then 0xFE
      else 0x5F
    case End =>
      if i == 0 then 0x56
      else if i == 1 then 0x6A
      else if i == 2 then 0x45
      else if i == 3 then 0xBE
      else if i == 4 then 0xDE
      else if i == 5 then 0xC0
      else if i == 6 then 0xAD
      else if i == 7 then 0xDE
      else 0x5E
    case StopSearch =>
      if i == 0 then 0x52
      else if i == 1 then 0x6A
      else if i == 2 then 0x45
      else if i == 3 then 0xBA
      else if i == 4 then 0x5E
      else if i == 5 then 0xEA
      else if i == 6 then 0x15
      else if i == 7 then 0x0D
      else 0x5A
  }

  /** `SignatureByte` agrees with the signature constants. */
  lemma SignatureByteAgrees(t: Tag, i: nat)
    requires i < TagSize
    ensures SignatureByte(t, i) == Signature(t)[i]
  {
    assert i == 0 || i == 1 || i == 2 || i == 3 || i == 4 || i == 5 || i == 6 || i == 7 || i == 8 || i == 9;
  }

  /** The tag `t` occurs, in full, at address `b`. */
  predicate MatchesAt(mem: seq<Byte>, b: nat, t: Tag)
  {
    b + TagSize <= |mem| && forall j :: b <= j < b + TagSize ==> mem[j] == Signature(t)[j - b]
  }

  /** The tag whose first byte is `x`, if any: the first byte decides which tag can begin there. */
  function TagStartingWith(x: Byte): (r: Option<Tag>)
    ensures r.Some? ==> Signature(r.value)[0] == x
    ensures r.None? ==> Signature(Start)[0] != x && Signature(End)[0] != x && Signature(StopSearch)[0] != x
  {
    if x == StartTagSignature[0] then Some(Start)
    else if x == EndTagSignature[0] then Some(End)
    else if x == StopSearchTagSignature[0] then Some(StopSearch)
    else None
  }

  /**
    * The rest of an attempt to match `t` at `b` once its first `i` bytes
    * agree: `t` if the remaining bytes agree as well, compared one by one.
    * An attempt never yields a tag other than the one it tries.
    */
  function MatchFrom(mem: seq<Byte>, b: nat, t: Tag, i: nat): (r: Option<Tag>)
    requires i <= TagSize
    ensures r.None? || r == Some(t)
    decreases TagSize - i
  {
    if i == TagSize then Some(t)
    else if b + i < |mem| && mem[b + i] == SignatureByte(t, i) then MatchFrom(mem, b, t, i + 1)
    else None
  }

  /**
    * The tag occurring at `b`, if any: the one its first byte selects, if all
    * its bytes agree. A reported tag is always the one the first byte selects.
    */
  function TagAt(mem: seq<Byte>, b: nat): (r: Option<Tag>)
    ensures r.Some? ==> b < |mem| && TagStartingWith(mem[b]) == r
  {
    if b < |mem| then
      match TagStartingWith(mem[b])
      case Some(t) => MatchFrom(mem, b, t, 1)
      case None => None
    else None
  }

  /** The first byte selects the attempt that decides the tag at `b`. */
  lemma TagAtSelected(mem: seq<Byte>, b: nat)
    requires b < |mem|
    ensures TagStartingWith(mem[b]).None? ==> TagAt(mem, b).None?
    ensures TagStartingWith(mem[b]).Some? ==> TagAt(mem, b) == MatchFrom(mem, b, TagStartingWith(mem[b]).value, 1)
  {
  }

  /** One comparison of an attempt: a byte that agrees defers to the next, one that does not ends it. */
  lemma MatchStep(mem: seq<Byte>, b: nat, t: Tag, i: nat)
    requires i < TagSize && b + i < |mem|
    ensures mem[b + i] == SignatureByte(t, i) ==> MatchFrom(mem, b, t, i) == MatchFrom(mem, b, t, i + 1)
    ensures mem[b + i] != SignatureByte(t, i) ==> MatchFrom(mem, b, t, i) == None
  {
  }

  /** An attempt past its first byte succeeds exactly when the remaining bytes all agree. */
  lemma {:induction false} MatchFromBytes(mem: seq<Byte>, b: nat, t: Tag, i: nat)
    requires 1 <= i < TagSize
    ensures MatchFrom(mem, b, t, i) == Some(t)
      <==> b + TagSize <= |mem| && forall j :: b + i <= j < b + TagSize ==> mem[j] == Signature(t)[j - b]
    decreases TagSize - i
  {
    SignatureByteAgrees(t, i);
    if i < TagSize - 1 {
      MatchFromBytes(mem, b, t, i + 1);
    }
  }

  /** The assumption the scanner relies on: the first byte of a tag determines the tag. */
  lemma FirstBytesDistinct(t: Tag, u: Tag)
    ensures Signature(t)[0] == Signature(u)[0] <==> t == u
  {
  }

  /** No tag's first byte recurs at a later position of any tag. */
  lemma {:induction false} FirstByteNotRepeated(t: Tag, u: Tag, j: nat)
    requires 1 <= j < TagSize
    ensures Signature(t)[j] != Signature(u)[0]
  {
    assert j == 1 || j == 2 || j == 3 || j == 4 || j == 5 || j == 6 || j == 7 || j == 8 || j == 9;
  }

  /** A tag occurs at `b` exactly when `TagAt` reports that tag there. */
  lemma TagAtExact(mem: seq<Byte>, b: nat, t: Tag)
    ensures TagAt(mem, b) == Some(t) <==> MatchesAt(mem, b, t)
  {
    if b < |mem| {
      match TagStartingWith(mem[b])
      case Some(u) =>
        MatchFromBytes(mem, b, u, 1);
        FirstBytesDistinct(t, u);
      case None =>
    }
  }

  /** Two tag occurrences never overlap: a later one begins after the earlier one ends. */
  lemma TagsApart(mem: seq<Byte>, s: nat, t: Tag, k: nat, u: Tag)
    requires MatchesAt(mem, s, t) && MatchesAt(mem, k, u) && s < k
    ensures s + TagSize <= k
  {
    assert mem[k] == Signature(u)[0];
    forall j | 1 <= j < TagSize
      ensures Signature(t)[j] != Signature(u)[0]
    {
      FirstByteNotRepeated(t, u, j);
    }
  }

  /** No tag starts strictly inside an occurrence of a tag. */
  lemma {:induction false} NoTagInsideTag(mem: seq<Byte>, b: nat, t: Tag, k: nat)
    requires MatchesAt(mem, b, t)
    requires b < k < b + TagSize
    ensures TagAt(mem, k).None?
  {
    assert mem[k] == Signature(t)[k - b];
    forall u: Tag
      ensures TagAt(mem, k) != Some(u)
    {
      FirstByteNotRepeated(t, u, k - b);
      TagAtExact(mem, k, u);
    }
  }
}
