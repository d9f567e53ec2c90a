/**
  * The signature scanner and its marker cache.
  *
  * The scanner walks the memory image from a resolved function address one
  * base address at a time. At each base it tries to match a whole tag byte by
  * byte; a Start tag records the address just past it as the pending region
  * start, an End tag closes the pending start into a marker, and a Stop tag
  * ends the scan. The image is finite, so every scan is given a Stop tag at
  * some address `stop` at or after its origin: the scan reaches it at the
  * latest, because the base advances by exactly one byte per attempt.
  */
module Markers {
  import opened Wrappers
  import opened Tags

  /** A hackable region `[start, end)`: `start` is just past a Start tag, `end` is where an End tag begins. */
  datatype Marker = Marker(start: nat, end: nat)

  /** The distance between the match base and the seek cursor beyond which the scan gives up. */
  const FailSafeDistance: int := 4096

  /**
    * The markers the scan of the image emits from base `b` on, given the
    * pending start. This is the scan's specification: one step per base
    * address, deciding what the base holds by `TagAt` rather than by the
    * byte-wise matcher, and ending at the Stop tag at `stop` at the latest.
    * At `stop` itself the Stop tag is found.
    */
  function ScanFrom(mem: seq<Byte>, b: nat, pending: Option<nat>, stop: nat): seq<Marker>
    requires b <= stop && MatchesAt(mem, stop, StopSearch)
    decreases stop - b
  {
    if b == stop then []
    else
      match TagAt(mem, b)
      case Some(StopSearch) => []
      case Some(Start) => ScanFrom(mem, b + 1, Some(b + TagSize), stop)
      case Some(End) =>
        if pending.Some? then [Marker(pending.value, b)] + ScanFrom(mem, b + 1, None, stop)
        else ScanFrom(mem, b + 1, None, stop)
      case None => ScanFrom(mem, b + 1, pending, stop)
  }

  /** `ms` is what a scan from `b` returns, for some Stop tag at or after `b`. */
  ghost predicate ScansTo(mem: seq<Byte>, b: nat, ms: seq<Marker>)
  {
    exists stop :: b <= stop && MatchesAt(mem, stop, StopSearch) && ms == ScanFrom(mem, b, None, stop)
  }

  /** No tag begins anywhere in `[lo, hi)`. */
  ghost predicate Untagged(mem: seq<Byte>, lo: nat, hi: nat)
  {
    forall k :: lo <= k < hi ==> TagAt(mem, k).None?
  }

  /** A pending start `q` just past a Start tag at `q - TagSize`, with no tag begun since, up to base `b`. */
  ghost predicate PendingFrom(mem: seq<Byte>, q: nat, b: nat)
  {
    TagSize <= q && q - TagSize < b && MatchesAt(mem, q - TagSize, Start) && Untagged(mem, q - TagSize + 1, b)
  }

  /** A marker lies between a Start tag and an End tag, and no tag begins inside it. */
  ghost predicate Bracketed(mem: seq<Byte>, m: Marker)
  {
    TagSize <= m.start <= m.end
    && MatchesAt(mem, m.start - TagSize, Start)
    && MatchesAt(mem, m.end, End)
    && Untagged(mem, m.start, m.end)
  }

  /** Markers in increasing address order, none overlapping the next. */
  ghost predicate Ascending(ms: seq<Marker>)
  {
    forall i, j :: 0 <= i < j < |ms| ==> ms[i].end < ms[j].start
  }

  /** The lowest region start a scan from `b` with this pending start can emit. */
  function LowestStart(b: nat, pending: Option<nat>): nat
  {
    if pending.Some? then pending.value else b + TagSize
  }

  /** Every marker is bracketed, ends in `[lo, stop)` and starts no lower than `lowStart`. */
  ghost predicate MarkersWithin(mem: seq<Byte>, ms: seq<Marker>, lo: nat, lowStart: nat, stop: nat)
  {
    forall m :: m in ms ==> Bracketed(mem, m) && lo <= m.end < stop && lowStart <= m.start
  }

  lemma AscendingCons(m: Marker, rest: seq<Marker>)
    requires Ascending(rest)
    requires forall r :: r in rest ==> m.end < r.start
    ensures Ascending([m] + rest)
  {
    var ms := [m] + rest;
    forall i, j | 0 <= i < j < |ms|
      ensures ms[i].end < ms[j].start
    {
      assert ms[j] == rest[j - 1];
      assert rest[j - 1] in rest;
      if i > 0 { assert ms[i] == rest[i - 1]; }
    }
  }

  /** Closing a pending start at an End tag in front of well-formed markers keeps them well formed. */
  lemma EmitWellFormed(mem: seq<Byte>, q: nat, b: nat, rest: seq<Marker>, stop: nat)
    requires PendingFrom(mem, q, b) && TagAt(mem, b) == Some(End) && b < stop
    requires MarkersWithin(mem, rest, b + 1, b + 1 + TagSize, stop) && Ascending(rest)
    ensures MarkersWithin(mem, [Marker(q, b)] + rest, b, q, stop) && Ascending([Marker(q, b)] + rest)
  {
    TagsApart(mem, q - TagSize, Start, b, End);
    assert Bracketed(mem, Marker(q, b));
    AscendingCons(Marker(q, b), rest);
  }

  /**
    * Every marker of a scan is bracketed by a Start and an End tag with no
    * tag inside, ends before the Stop tag, and the markers are in ascending,
    * non-overlapping order.
    */
  lemma {:induction false} ScanWellFormed(mem: seq<Byte>, b: nat, pending: Option<nat>, stop: nat)
    requires b <= stop && MatchesAt(mem, stop, StopSearch)
    requires pending.Some? ==> PendingFrom(mem, pending.value, b)
    ensures WellFormedFrom(mem, b, pending, stop, LowestStart(b, pending))
    decreases stop - b
  {
    match TagAt(mem, b)
    case Some(StopSearch) =>
      StepStop(mem, b, pending, stop);
    case Some(Start) =>
      StepStart(mem, b, pending, stop);
      ScanWellFormed(mem, b + 1, Some(b + TagSize), stop);
      WellFormedAfterStart(mem, b, pending, stop);
    case Some(End) =>
      StepEnd(mem, b, pending, stop);
      ScanWellFormed(mem, b + 1, None, stop);
      WellFormedAfterEnd(mem, b, pending, stop);
    case None =>
      StepUntagged(mem, b, pending, stop);
      if pending.Some? {
        PendingExtends(mem, pending.value, b);
      }
      ScanWellFormed(mem, b + 1, pending, stop);
      WellFormedAfterUntagged(mem, b, pending, stop);
  }

  /** A scan from `b` whose markers are bracketed, lie in `[b, stop)`, start no lower than `lowStart` and ascend. */
  ghost predicate WellFormedFrom(mem: seq<Byte>, b: nat, pending: Option<nat>, stop: nat, lowStart: nat)
    requires b <= stop && MatchesAt(mem, stop, StopSearch)
  {
    var ms := ScanFrom(mem, b, pending, stop);
    MarkersWithin(mem, ms, b, lowStart, stop) && Ascending(ms)
  }

  lemma WellFormedAfterStart(mem: seq<Byte>, b: nat, pending: Option<nat>, stop: nat)
    requires b <= stop && MatchesAt(mem, stop, StopSearch) && TagAt(mem, b) == Some(Start)
    requires pending.Some? ==> PendingFrom(mem, pending.value, b)
    requires b < stop && WellFormedFrom(mem, b + 1, Some(b + TagSize), stop, b + TagSize)
    ensures WellFormedFrom(mem, b, pending, stop, LowestStart(b, pending))
  {
    StepStart(mem, b, pending, stop);
    WithinWidened(mem, ScanFrom(mem, b, pending, stop), b + 1, b, b + TagSize, LowestStart(b, pending), stop);
  }

  lemma WellFormedAfterEnd(mem: seq<Byte>, b: nat, pending: Option<nat>, stop: nat)
    requires b <= stop && MatchesAt(mem, stop, StopSearch) && TagAt(mem, b) == Some(End)
    requires pending.Some? ==> PendingFrom(mem, pending.value, b)
    requires b < stop && WellFormedFrom(mem, b + 1, None, stop, b + 1 + TagSize)
    ensures WellFormedFrom(mem, b, pending, stop, LowestStart(b, pending))
  {
    StepEnd(mem, b, pending, stop);
    var rest := ScanFrom(mem, b + 1, None, stop);
    if pending.Some? {
      EmitWellFormed(mem, pending.value, b, rest, stop);
    } else {
      assert ScanFrom(mem, b, pending, stop) == rest;
      WithinWidened(mem, rest, b + 1, b, b + 1 + TagSize, b + TagSize, stop);
    }
  }

  lemma WellFormedAfterUntagged(mem: seq<Byte>, b: nat, pending: Option<nat>, stop: nat)
    requires b <= stop && MatchesAt(mem, stop, StopSearch) && TagAt(mem, b).None?
    requires b < stop && WellFormedFrom(mem, b + 1, pending, stop, LowestStart(b + 1, pending))
    ensures WellFormedFrom(mem, b, pending, stop, LowestStart(b, pending))
  {
    StepUntagged(mem, b, pending, stop);
    WithinWidened(mem, ScanFrom(mem, b, pending, stop), b + 1, b, LowestStart(b + 1, pending), LowestStart(b, pending), stop);
  }

  /** Loosening the bounds of `MarkersWithin` keeps it true. */
  lemma WithinWidened(mem: seq<Byte>, ms: seq<Marker>, lo: nat, lo': nat, lowStart: nat, lowStart': nat, stop: nat)
    requires MarkersWithin(mem, ms, lo, lowStart, stop) && lo' <= lo && lowStart' <= lowStart
    ensures MarkersWithin(mem, ms, lo', lowStart', stop)
  {
  }

  /** A base without a tag keeps a pending start pending. */
  lemma PendingExtends(mem: seq<Byte>, q: nat, b: nat)
    requires PendingFrom(mem, q, b) && TagAt(mem, b).None?
    ensures PendingFrom(mem, q, b + 1)
  {
  }

  /** A stretch without tags changes nothing: the scan just walks across it. */
  lemma {:induction false} SkipUntagged(mem: seq<Byte>, b: nat, c: nat, pending: Option<nat>, stop: nat)
    requires b <= c <= stop && MatchesAt(mem, stop, StopSearch)
    requires Untagged(mem, b, c)
    ensures ScanFrom(mem, b, pending, stop) == ScanFrom(mem, c, pending, stop)
    decreases c - b
  {
    if b < c {
      StepUntagged(mem, b, pending, stop);
      SkipUntagged(mem, b + 1, c, pending, stop);
    }
  }

  /** The bytes of a tag occurrence after its first are themselves untagged. */
  lemma InsideTagUntagged(mem: seq<Byte>, b: nat, t: Tag)
    requires MatchesAt(mem, b, t)
    ensures Untagged(mem, b + 1, b + TagSize)
  {
    forall k | b + 1 <= k < b + TagSize
      ensures TagAt(mem, k).None?
    {
      NoTagInsideTag(mem, b, t, k);
    }
  }

  /** The scan runs over a whole tag occurrence at `b` as if only its first byte were there. */
  lemma SkipTagBody(mem: seq<Byte>, b: nat, t: Tag, pending: Option<nat>, stop: nat)
    requires MatchesAt(mem, b, t) && b + TagSize <= stop && MatchesAt(mem, stop, StopSearch)
    ensures ScanFrom(mem, b + 1, pending, stop) == ScanFrom(mem, b + TagSize, pending, stop)
  {
    InsideTagUntagged(mem, b, t);
    SkipUntagged(mem, b + 1, b + TagSize, pending, stop);
  }

  /**
    * The layout the build produces: from `b`, the Start/End tag pairs at the
    * given addresses, in order and not overlapping, with nothing else tagged
    * in between, and the Stop tag at `stop` after the last pair.
    */
  ghost predicate Layout(mem: seq<Byte>, b: nat, pairs: seq<(nat, nat)>, stop: nat)
    decreases |pairs|
  {
    if pairs == [] then
      b <= stop && Untagged(mem, b, stop) && MatchesAt(mem, stop, StopSearch)
    else
      PairAt(mem, b, pairs[0].0, pairs[0].1) && Layout(mem, pairs[0].1 + TagSize, pairs[1..], stop)
  }

  /** From `b`, untagged bytes up to a Start tag at `s`, untagged bytes after it up to an End tag at `e`. */
  ghost predicate PairAt(mem: seq<Byte>, b: nat, s: nat, e: nat)
  {
    b <= s && s + TagSize <= e
    && Untagged(mem, b, s) && MatchesAt(mem, s, Start)
    && Untagged(mem, s + TagSize, e) && MatchesAt(mem, e, End)
  }

  /** The markers the build intends for those pairs: just past each Start tag up to each End tag. */
  function Intended(pairs: seq<(nat, nat)>): (ms: seq<Marker>)
    ensures |ms| == |pairs|
    ensures forall i :: 0 <= i < |pairs| ==> ms[i] == Marker(pairs[i].0 + TagSize, pairs[i].1)
  {
    if pairs == [] then [] else [Marker(pairs[0].0 + TagSize, pairs[0].1)] + Intended(pairs[1..])
  }

  lemma {:induction false} LayoutBounds(mem: seq<Byte>, b: nat, pairs: seq<(nat, nat)>, stop: nat)
    requires Layout(mem, b, pairs, stop)
    ensures b <= stop && MatchesAt(mem, stop, StopSearch)
    decreases |pairs|
  {
    if pairs != [] {
      LayoutBounds(mem, pairs[0].1 + TagSize, pairs[1..], stop);
    }
  }

  /**
    * N well-formed, non-overlapping Start/End pairs followed by a Stop tag
    * scan to exactly N markers, in source order, each from just past its
    * Start tag to the first byte of its End tag.
    */
  lemma {:induction false} ScanPairs(mem: seq<Byte>, b: nat, pairs: seq<(nat, nat)>, stop: nat)
    requires Layout(mem, b, pairs, stop)
    requires b <= stop && MatchesAt(mem, stop, StopSearch)
    ensures ScanFrom(mem, b, None, stop) == Intended(pairs)
    decreases |pairs|
  {
    if pairs == [] {
      SkipUntagged(mem, b, stop, None, stop);
    } else {
      var rest := pairs[1..];
      var next := pairs[0].1 + TagSize;
      var m := Marker(pairs[0].0 + TagSize, pairs[0].1);
      LayoutBounds(mem, next, rest, stop);
      calc {
        ScanFrom(mem, b, None, stop);
        { PassPair(mem, b, pairs[0].0, pairs[0].1, stop); }
        [m] + ScanFrom(mem, next, None, stop);
        { ScanPairs(mem, next, rest, stop); }
        [m] + Intended(rest);
        Intended(pairs);
      }
    }
  }

  /** One Start/End pair from `b` yields its marker, and the scan resumes after the End tag. */
  lemma PassPair(mem: seq<Byte>, b: nat, s: nat, e: nat, stop: nat)
    requires PairAt(mem, b, s, e) && e + TagSize <= stop && MatchesAt(mem, stop, StopSearch)
    ensures ScanFrom(mem, b, None, stop) == [Marker(s + TagSize, e)] + ScanFrom(mem, e + TagSize, None, stop)
  {
    calc {
      ScanFrom(mem, b, None, stop);
      { SkipUntagged(mem, b, s, None, stop); }
      ScanFrom(mem, s, None, stop);
      { PassStart(mem, s, None, e, stop); }
      ScanFrom(mem, e, Some(s + TagSize), stop);
      { PassEnd(mem, e, Some(s + TagSize), stop); }
      [Marker(s + TagSize, e)] + ScanFrom(mem, e + TagSize, None, stop);
    }
  }

  /**
    * A Start tag at `s` followed by untagged bytes up to `c`: the scan
    * arrives at `c` with the start just past that tag pending.
    */
  lemma PassStart(mem: seq<Byte>, s: nat, pending: Option<nat>, c: nat, stop: nat)
    requires MatchesAt(mem, s, Start) && s + TagSize <= c <= stop && MatchesAt(mem, stop, StopSearch)
    requires Untagged(mem, s + TagSize, c)
    ensures ScanFrom(mem, s, pending, stop) == ScanFrom(mem, c, Some(s + TagSize), stop)
  {
    TagAtExact(mem, s, Start);
    StepStart(mem, s, pending, stop);
    SkipTagBody(mem, s, Start, Some(s + TagSize), stop);
    SkipUntagged(mem, s + TagSize, c, Some(s + TagSize), stop);
  }

  /** An End tag at `e`: a pending start is closed there, and the scan resumes after the tag. */
  lemma PassEnd(mem: seq<Byte>, e: nat, pending: Option<nat>, stop: nat)
    requires MatchesAt(mem, e, End) && e <= stop && MatchesAt(mem, stop, StopSearch)
    ensures e + TagSize <= stop
    ensures ScanFrom(mem, e, pending, stop)
      == (if pending.Some? then [Marker(pending.value, e)] else []) + ScanFrom(mem, e + TagSize, None, stop)
  {
    TagAtExact(mem, e, End);
    StepEnd(mem, e, pending, stop);
    TagsApart(mem, e, End, stop, StopSearch);
    SkipTagBody(mem, e, End, None, stop);
  }

  /** With no End tag from `b` up to the Stop tag, the scan emits nothing, whatever is pending. */
  lemma {:induction false} NoEndNoMarkers(mem: seq<Byte>, b: nat, pending: Option<nat>, stop: nat)
    requires b <= stop && MatchesAt(mem, stop, StopSearch)
    requires forall k :: b <= k < stop ==> TagAt(mem, k) != Some(End)
    ensures ScanFrom(mem, b, pending, stop) == []
    decreases stop - b
  {
    if b < stop {
      var tag := TagAt(mem, b);
      if tag == Some(Start) {
        StepStart(mem, b, pending, stop);
        NoEndNoMarkers(mem, b + 1, Some(b + TagSize), stop);
      } else if tag == Some(StopSearch) {
        StepStop(mem, b, pending, stop);
      } else {
        StepUntagged(mem, b, pending, stop);
        NoEndNoMarkers(mem, b + 1, pending, stop);
      }
    }
  }

  /** A Start tag never closed by an End tag before the Stop tag yields no marker, whatever was pending. */
  lemma UnclosedStartDropped(mem: seq<Byte>, s: nat, pending: Option<nat>, stop: nat)
    requires MatchesAt(mem, s, Start) && s <= stop && MatchesAt(mem, stop, StopSearch)
    requires forall k :: s < k < stop ==> TagAt(mem, k) != Some(End)
    ensures ScanFrom(mem, s, pending, stop) == []
  {
    TagAtExact(mem, s, Start);
    NoEndNoMarkers(mem, s, pending, stop);
  }

  /** A second Start tag before any End tag replaces the pending start: regions do not nest. */
  lemma StartOverwritesPending(mem: seq<Byte>, s1: nat, s2: nat, e: nat, pending: Option<nat>, stop: nat)
    requires MatchesAt(mem, s1, Start) && s1 + TagSize <= s2 && Untagged(mem, s1 + TagSize, s2)
    requires MatchesAt(mem, s2, Start) && s2 + TagSize <= e && Untagged(mem, s2 + TagSize, e)
    requires MatchesAt(mem, e, End) && e + TagSize <= stop && MatchesAt(mem, stop, StopSearch)
    ensures ScanFrom(mem, s1, pending, stop) == [Marker(s2 + TagSize, e)] + ScanFrom(mem, e + TagSize, None, stop)
  {
    calc {
      ScanFrom(mem, s1, pending, stop);
      { PassStart(mem, s1, pending, s2, stop); }
      ScanFrom(mem, s2, Some(s1 + TagSize), stop);
      { PassStart(mem, s2, Some(s1 + TagSize), e, stop); }
      ScanFrom(mem, e, Some(s2 + TagSize), stop);
      { PassEnd(mem, e, Some(s2 + TagSize), stop); }
      [Marker(s2 + TagSize, e)] + ScanFrom(mem, e + TagSize, None, stop);
    }
  }

  /** An End tag with no pending start is passed over without a marker. */
  lemma UnpairedEndIgnored(mem: seq<Byte>, b: nat, e: nat, stop: nat)
    requires b <= e < stop && Untagged(mem, b, e)
    requires MatchesAt(mem, e, End) && MatchesAt(mem, stop, StopSearch)
    ensures ScanFrom(mem, b, None, stop) == ScanFrom(mem, e + 1, None, stop)
  {
    TagAtExact(mem, e, End);
    SkipUntagged(mem, b, e, None, stop);
    StepEnd(mem, e, None, stop);
  }

  /** The scan ends at the first Stop tag: which Stop tag is named as its bound does not matter. */
  lemma {:induction false} ScanStopIndependent(mem: seq<Byte>, b: nat, pending: Option<nat>, stop1: nat, stop2: nat)
    requires b <= stop1 && MatchesAt(mem, stop1, StopSearch)
    requires b <= stop2 && MatchesAt(mem, stop2, StopSearch)
    ensures ScanFrom(mem, b, pending, stop1) == ScanFrom(mem, b, pending, stop2)
    decreases stop1 - b
  {
    if b == stop1 || b == stop2 {
      TagAtExact(mem, b, StopSearch);
      StepStop(mem, b, pending, stop1);
      StepStop(mem, b, pending, stop2);
    } else {
      match TagAt(mem, b)
      case Some(StopSearch) =>
        StepStop(mem, b, pending, stop1);
        StepStop(mem, b, pending, stop2);
      case Some(Start) =>
        StepStart(mem, b, pending, stop1);
        StepStart(mem, b, pending, stop2);
        ScanStopIndependent(mem, b + 1, Some(b + TagSize), stop1, stop2);
      case Some(End) =>
        StepEnd(mem, b, pending, stop1);
        StepEnd(mem, b, pending, stop2);
        ScanStopIndependent(mem, b + 1, None, stop1, stop2);
      case None =>
        StepUntagged(mem, b, pending, stop1);
        StepUntagged(mem, b, pending, stop2);
        ScanStopIndependent(mem, b + 1, pending, stop1, stop2);
    }
  }

  /** A scan has one result: two Stop-bounded scans of the same address agree. */
  lemma ScansToUnique(mem: seq<Byte>, b: nat, ms1: seq<Marker>, ms2: seq<Marker>)
    requires ScansTo(mem, b, ms1) && ScansTo(mem, b, ms2)
    ensures ms1 == ms2
  {
    var s1 :| b <= s1 && MatchesAt(mem, s1, StopSearch) && ms1 == ScanFrom(mem, b, None, s1);
    var s2 :| b <= s2 && MatchesAt(mem, s2, StopSearch) && ms2 == ScanFrom(mem, b, None, s2);
    ScanStopIndependent(mem, b, None, s1, s2);
  }

  /**
    * The scan reads only the bytes from its origin up to the end of the Stop
    * tag: two images that agree there scan alike.
    */
  lemma ScanReadsOnlyUpToStop(mem1: seq<Byte>, mem2: seq<Byte>, b: nat, pending: Option<nat>, stop: nat)
    requires b <= stop && MatchesAt(mem1, stop, StopSearch)
    requires stop + TagSize <= |mem2| && mem1[b..stop + TagSize] == mem2[b..stop + TagSize]
    ensures MatchesAt(mem2, stop, StopSearch)
    ensures ScanFrom(mem1, b, pending, stop) == ScanFrom(mem2, b, pending, stop)
  {
    forall k | b <= k <= stop
      ensures TagAt(mem1, k) == TagAt(mem2, k)
    {
      AgreeingTagAt(mem1, mem2, b, stop + TagSize, k);
    }
    TagAtExact(mem1, stop, StopSearch);
    TagAtExact(mem2, stop, StopSearch);
    ScanSameTags(mem1, mem2, b, pending, stop);
  }

  /** The scan sees the image only through the tags at its bases. */
  lemma {:induction false} ScanSameTags(mem1: seq<Byte>, mem2: seq<Byte>, b: nat, pending: Option<nat>, stop: nat)
    requires b <= stop && MatchesAt(mem1, stop, StopSearch) && MatchesAt(mem2, stop, StopSearch)
    requires forall k :: b <= k <= stop ==> TagAt(mem1, k) == TagAt(mem2, k)
    ensures ScanFrom(mem1, b, pending, stop) == ScanFrom(mem2, b, pending, stop)
    decreases stop - b
  {
    if b == stop {
      StepStop(mem1, b, pending, stop);
      StepStop(mem2, b, pending, stop);
    } else {
      match TagAt(mem1, b)
      case Some(StopSearch) =>
        StepStop(mem1, b, pending, stop);
        StepStop(mem2, b, pending, stop);
      case Some(Start) =>
        StepStart(mem1, b, pending, stop);
        StepStart(mem2, b, pending, stop);
        ScanSameTags(mem1, mem2, b + 1, Some(b + TagSize), stop);
      case Some(End) =>
        StepEnd(mem1, b, pending, stop);
        StepEnd(mem2, b, pending, stop);
        ScanSameTags(mem1, mem2, b + 1, None, stop);
      case None =>
        StepUntagged(mem1, b, pending, stop);
        StepUntagged(mem2, b, pending, stop);
        ScanSameTags(mem1, mem2, b + 1, pending, stop);
    }
  }

  /** Two images that agree on `[lo, hi)` hold the same tag at any `k` whose tag bytes lie there. */
  lemma AgreeingTagAt(mem1: seq<Byte>, mem2: seq<Byte>, lo: nat, hi: nat, k: nat)
    requires lo <= k && k + TagSize <= hi <= |mem1| && hi <= |mem2|
    requires mem1[lo..hi] == mem2[lo..hi]
    ensures TagAt(mem1, k) == TagAt(mem2, k)
  {
    forall j | k <= j < k + TagSize
      ensures mem1[j] == mem2[j]
    {
      assert mem1[j] == mem1[lo..hi][j - lo];
      assert mem2[j] == mem2[lo..hi][j - lo];
    }
  }

  /** One step of the scan at a base holding no tag. */
  lemma StepUntagged(mem: seq<Byte>, b: nat, pending: Option<nat>, stop: nat)
    requires b <= stop && MatchesAt(mem, stop, StopSearch) && TagAt(mem, b).None?
    ensures b < stop && ScanFrom(mem, b, pending, stop) == ScanFrom(mem, b + 1, pending, stop)
  {
    TagAtExact(mem, stop, StopSearch);
  }

  /** One step of the scan at a base holding a Start tag: the pending start moves just past it. */
  lemma StepStart(mem: seq<Byte>, b: nat, pending: Option<nat>, stop: nat)
    requires b <= stop && MatchesAt(mem, stop, StopSearch) && TagAt(mem, b) == Some(Start)
    ensures b < stop && ScanFrom(mem, b, pending, stop) == ScanFrom(mem, b + 1, Some(b + TagSize), stop)
  {
    TagAtExact(mem, stop, StopSearch);
  }

  /** One step of the scan at a base holding an End tag: a pending start is closed into a marker ending at `b`. */
  lemma StepEnd(mem: seq<Byte>, b: nat, pending: Option<nat>, stop: nat)
    requires b <= stop && MatchesAt(mem, stop, StopSearch) && TagAt(mem, b) == Some(End)
    ensures b < stop
    ensures ScanFrom(mem, b, pending, stop)
      == (if pending.Some? then [Marker(pending.value, b)] else []) + ScanFrom(mem, b + 1, None, stop)
  {
    TagAtExact(mem, stop, StopSearch);
  }

  /** The scan ends at a Stop tag, dropping any pending start. */
  lemma StepStop(mem: seq<Byte>, b: nat, pending: Option<nat>, stop: nat)
    requires b <= stop && MatchesAt(mem, stop, StopSearch) && TagAt(mem, b) == Some(StopSearch)
    ensures ScanFrom(mem, b, pending, stop) == []
  {
  }

  /**
    * What the matcher does once all bytes of tag `t` at `b` agree: a Start
    * tag makes the byte after it the pending start, an End tag closes a
    * pending start into a marker, the Stop tag ends the scan (`done`).
    */
  method CompleteTag(mem: seq<Byte>, b: nat, t: Tag, markers: seq<Marker>, pending: Option<nat>, ghost stop: nat)
    returns (markers': seq<Marker>, pending': Option<nat>, done: bool)
    requires b <= stop && MatchesAt(mem, stop, StopSearch) && TagAt(mem, b) == Some(t)
    ensures done <==> t == StopSearch
    ensures t == Start ==> markers' == markers && pending' == Some(b + TagSize)
    ensures t == End ==> pending' == None && markers' == markers + (if pending.Some? then [Marker(pending.value, b)] else [])
    ensures t == StopSearch ==> markers' == markers
    ensures done ==> markers' == markers + ScanFrom(mem, b, pending, stop)
    ensures !done ==> b < stop && markers' + ScanFrom(mem, b + 1, pending', stop) == markers + ScanFrom(mem, b, pending, stop)
  {
    markers', pending', done := markers, pending, false;
    if t == Start {
      StepStart(mem, b, pending, stop);
      pending' := Some(b + TagSize);
    } else if t == End {
      StepEnd(mem, b, pending, stop);
      if pending.Some? {
        var marker := Marker(pending.value, b);
        assert markers + ([marker] + ScanFrom(mem, b + 1, None, stop)) == (markers + [marker]) + ScanFrom(mem, b + 1, None, stop);
        markers' := markers + [marker];
        pending' := None;
      }
    } else {
      StepStop(mem, b, pending, stop);
      done := true;
    }
  }

  /**
    * The byte-wise matcher: `currentBase` is where the current tag attempt
    * began, `currentSeek` the next byte to compare, `target` the tag selected
    * by the first byte, `nextHackableCodeStart` the pending region start.
    * Its result is the specification's scan of the image from `functionStart`.
    */
  method ScanMarkers(mem: seq<Byte>, functionStart: nat, ghost stop: nat) returns (markers: seq<Marker>)
    requires functionStart <= stop && MatchesAt(mem, stop, StopSearch)
    ensures markers == ScanFrom(mem, functionStart, None, stop)
  {
    ghost var scan := ScanFrom(mem, functionStart, None, stop);
    var currentBase: nat := functionStart;
    var currentSeek: nat := functionStart;
    var target: Option<Tag> := None;
    var nextHackableCodeStart: Option<nat> := None;
    markers := [];
    while true
      invariant currentBase <= stop
      invariant currentBase <= currentSeek < currentBase + TagSize && currentSeek < |mem|
      invariant target.None? ==> currentSeek == currentBase
      invariant target.Some? ==>
        currentBase < currentSeek && TagAt(mem, currentBase) == MatchFrom(mem, currentBase, target.value, currentSeek - currentBase)
      invariant markers + ScanFrom(mem, currentBase, nextHackableCodeStart, stop) == scan
      decreases stop - currentBase, TagSize - (currentSeek - currentBase)
    {
      var signatureIndex: int := currentSeek - currentBase;
      if signatureIndex > FailSafeDistance {
        // The seek cursor never runs more than one tag ahead of the base.
        assert false;
        break;
      }

      if target.None? {
        // The first byte selects the only tag that can occur at this base.
        target := TagStartingWith(mem[currentSeek]);
        TagAtSelected(mem, currentBase);
        if target.None? {
          StepUntagged(mem, currentBase, nextHackableCodeStart, stop);
          currentBase := currentBase + 1;
          currentSeek := currentBase;
          continue;
        }
        currentSeek := currentSeek + 1;
        assert currentSeek - currentBase == 1;
        continue;
      }

      var t := target.value;
      MatchStep(mem, currentBase, t, signatureIndex);
      if mem[currentSeek] == SignatureByte(t, signatureIndex) {
        currentSeek := currentSeek + 1;
        if signatureIndex == TagSize - 1 {
          var done;
          markers, nextHackableCodeStart, done := CompleteTag(mem, currentBase, t, markers, nextHackableCodeStart, stop);
          if done {
            break;
          }
        } else {
          assert currentSeek - currentBase == signatureIndex + 1;
          continue;
        }
      } else {
        StepUntagged(mem, currentBase, nextHackableCodeStart, stop);
      }

      target := None;
      currentBase := currentBase + 1;
      currentSeek := currentBase;
    }
  }

  /**
    * The marker lists already found, keyed by the caller's function address
    * as given, before resolution. Entries are never replaced or evicted.
    */
  class MarkerCache {
    var entries: map<nat, seq<Marker>>

    constructor ()
      ensures entries == map[]
    {
      entries := map[];
    }

    /** Every entry is the scan of the image from its key's resolved address. */
    ghost predicate Coherent(mem: seq<Byte>, resolve: nat -> nat)
      reads this
    {
      forall key :: key in entries ==> ScansTo(mem, resolve(key), entries[key])
    }

    /**
      * Returns the cached markers for `functionStart` if there are any;
      * otherwise resolves the address, scans from the resolved address and
      * stores the result under the unresolved one.
      */
    method ParseHackableMarkers(mem: array<Byte>, functionStart: nat, resolve: nat -> nat, ghost stop: nat)
      returns (markers: seq<Marker>)
      requires functionStart !in entries ==> resolve(functionStart) <= stop && MatchesAt(mem[..], stop, StopSearch)
      modifies this
      ensures functionStart in old(entries) ==> markers == old(entries)[functionStart] && entries == old(entries)
      ensures functionStart !in old(entries) ==>
        markers == ScanFrom(mem[..], resolve(functionStart), None, stop) && entries == old(entries)[functionStart := markers]
      ensures old(Coherent(mem[..], resolve)) ==> Coherent(mem[..], resolve) && ScansTo(mem[..], resolve(functionStart), markers)
    {
      if functionStart in entries {
        return entries[functionStart];
      }
      var resolvedFunctionStart := resolve(functionStart);
      markers := ScanMarkers(mem[..], resolvedFunctionStart, stop);
      entries := entries[functionStart := markers];
    }
  }

  /** Asking the cache twice for the same function gives the same markers, and the second time does not scan. */
  method ParseTwiceAgrees(cache: MarkerCache, mem: array<Byte>, functionStart: nat, resolve: nat -> nat, ghost stop: nat)
    returns (first: seq<Marker>, second: seq<Marker>)
    requires functionStart !in cache.entries ==> resolve(functionStart) <= stop && MatchesAt(mem[..], stop, StopSearch)
    modifies cache
    ensures first == second
    ensures functionStart in cache.entries && cache.entries[functionStart] == first
  {
    first := cache.ParseHackableMarkers(mem, functionStart, resolve, stop);
    second := cache.ParseHackableMarkers(mem, functionStart, resolve, stop);
  }
}
