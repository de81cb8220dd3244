// Compressed names (section 4.1.4 of RFC 1035): what a pointer reads, and how many are followed.

module Compression {
  import opened Bytes
  import opened Names

  // The two octets of a pointer to offset t.
  predicate PointsTo(pointer: bytes, t: nat)
  {
    |pointer| == 2 && pointer[0] >= 192 && t == (pointer[0] as int - 192) * 256 + pointer[1]
  }

  // From pos to end stand these labels, each behind its length, and then the pointer.
  predicate Written(buf: bytes, pos: nat, ls: seq<bytes>, pointer: bytes, end: nat)
    decreases |ls|
  {
    if ls == [] then end == pos + 2 <= |buf| && buf[pos..end] == pointer
    else
      var next := pos + 1 + |ls[0]|;
      && 1 <= |ls[0]| <= 63 && next <= |buf| && buf[pos] == |ls[0]| && buf[pos + 1..next] == ls[0]
      && Written(buf, next, ls[1..], pointer, end)
  }

  // The labels fs in front of what stands there.
  function InFront(fs: seq<bytes>, there: Option<seq<bytes>>): Option<seq<bytes>>
  {
    if there.None? then None else Some(fs + there.value)
  }

  /** Labels followed by a pointer read as the labels and then what stands at the pointer's
      target. */
  lemma {:induction false} CompressedNameParses(fold: Fold, ls: seq<bytes>, fs: seq<bytes>, pointer: bytes, t: nat,
                                                buf: bytes, pos: nat, end: nat, hops: nat, there: Option<seq<bytes>>)
    requires Written(buf, pos, ls, pointer, end) && Folded(fold, ls, fs) && PointsTo(pointer, t) && t < |buf|
    requires hops > 0 && there == Labels(fold, buf, t, hops - 1)
    ensures Labels(fold, buf, pos, hops) == InFront(fs, there)
    decreases |ls|
  {
    if ls == [] {
      PointerParses(fold, pointer, t, buf, pos, hops);
      NothingInFront(fs, there);
    } else {
      CompressedNameParses(fold, ls[1..], fs[1..], pointer, t, buf, pos + 1 + |ls[0]|, end, hops, there);
      LabelParses(fold, buf, pos, hops, ls[0], fs[0]);
      OneInFront(fs, there);
    }
  }

  lemma {:induction false} LabelParses(fold: Fold, buf: bytes, pos: nat, hops: nat, l: bytes, f: bytes)
    requires 1 <= |l| <= 63 && pos + 1 + |l| <= |buf| && buf[pos] == |l| && buf[pos + 1..pos + 1 + |l|] == l
    requires fold(l) == Some(f)
    ensures Labels(fold, buf, pos, hops) == InFront([f], Labels(fold, buf, pos + 1 + |l|, hops))
  {}

  /** The name ends behind the pointer. */
  lemma {:induction false} CompressedNameEnds(ls: seq<bytes>, pointer: bytes, t: nat, buf: bytes, pos: nat, end: nat)
    requires Written(buf, pos, ls, pointer, end) && PointsTo(pointer, t)
    ensures SkipName(buf, pos) == Some(end)
    decreases |ls|
  {
    if ls == [] {
      assert buf[pos] == buf[pos..end][0];
    } else {
      CompressedNameEnds(ls[1..], pointer, t, buf, pos + 1 + |ls[0]|, end);
    }
  }

  lemma {:induction false} PointerParses(fold: Fold, pointer: bytes, t: nat, buf: bytes, pos: nat, hops: nat)
    requires PointsTo(pointer, t) && t < |buf| && hops > 0 && pos + 2 <= |buf| && buf[pos..pos + 2] == pointer
    ensures Labels(fold, buf, pos, hops) == Labels(fold, buf, t, hops - 1)
  {
    assert buf[pos] == buf[pos..pos + 2][0] && buf[pos + 1] == buf[pos..pos + 2][1];
    assert PointerTarget(buf, pos) == t;
  }

  lemma NothingInFront(fs: seq<bytes>, there: Option<seq<bytes>>)
    requires fs == []
    ensures InFront(fs, there) == there
  {
    assert there.Some? ==> fs + there.value == there.value;
  }

  lemma OneInFront(fs: seq<bytes>, there: Option<seq<bytes>>)
    requires fs != []
    ensures InFront([fs[0]], InFront(fs[1..], there)) == InFront(fs, there)
  {
    assert there.Some? ==> [fs[0]] + (fs[1..] + there.value) == fs + there.value;
  }

  // From pos on, h pointers each to the octets right behind it, and then a zero.
  predicate Chain(buf: bytes, pos: nat, h: nat)
    decreases h
  {
    if h == 0 then pos < |buf| && buf[pos] == 0
    else
      pos + 2 < |buf| && PointsTo(buf[pos..pos + 2], pos + 2) && Chain(buf, pos + 2, h - 1)
  }

  lemma {:induction false} ChainReads(fold: Fold, buf: bytes, pos: nat, h: nat, hops: nat)
    requires Chain(buf, pos, h)
    ensures Labels(fold, buf, pos, hops) == if h <= hops then Some([]) else None
    decreases h
  {
    if h > 0 {
      assert PointerTarget(buf, pos) == pos + 2;
      if hops > 0 {
        ChainReads(fold, buf, pos + 2, h - 1, hops - 1);
      }
    }
  }

  /** A chain of pointers is followed to its end exactly when there are no more than 128. */
  lemma ChainLimit(fold: Fold, buf: bytes, pos: nat, h: nat)
    requires Chain(buf, pos, h)
    ensures ParseDomain(fold, buf, pos).Some? <==> h <= 128
  {
    ChainReads(fold, buf, pos, h, MAX_HOPS);
  }
}
