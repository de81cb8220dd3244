// Domain names on the wire (section 4.1.4 of RFC 1035): skipping a name, parsing
// it through compression pointers, and printing it without compression.

module Names {
  import opened Bytes
  import opened Text

  const MAX_HOPS: nat := 128

  // Decoding and lower-casing of one label; None is a label that is not UTF-8.
  type Fold = bytes -> Option<bytes>

  // Offset just past the name at pos. Pointers are not followed.
  function SkipName(buf: bytes, pos: nat): Option<nat>
    decreases |buf| - pos
  {
    if pos >= |buf| then None
    else if buf[pos] == 0 then Some(pos + 1)
    else if buf[pos] >= 192 then Some(pos + 2)
    else SkipName(buf, pos + 1 + buf[pos])
  }

  function PointerTarget(buf: bytes, pos: nat): nat
    requires pos + 1 < |buf| && buf[pos] >= 192
  {
    (buf[pos] as int - 192) * 256 + buf[pos + 1]
  }

  // The labels of the name at pos, following at most `hops` pointers.
  function Labels(fold: Fold, buf: bytes, pos: nat, hops: nat): Option<seq<bytes>>
    decreases hops, |buf| - pos
  {
    if pos >= |buf| then None
    else if buf[pos] >= 192 then
      if pos + 1 >= |buf| || hops == 0 || PointerTarget(buf, pos) >= |buf| then None
      else Labels(fold, buf, PointerTarget(buf, pos), hops - 1)
    else if buf[pos] >= 64 then None
    else if buf[pos] == 0 then Some([])
    else
      var next := pos + 1 + buf[pos];
      if next > |buf| then None
      else
        var first, rest := fold(buf[pos + 1..next]), Labels(fold, buf, next, hops);
        if first.None? || rest.None? then None else Some([first.value] + rest.value)
  }

  // Dotted text: a dot is pushed only onto text that is not empty.
  function Push(text: bytes, part: bytes): bytes
  {
    if text == [] then part else text + [DOT] + part
  }

  function Spell(text: bytes, labels: seq<bytes>): bytes
    decreases |labels|
  {
    if labels == [] then text else Spell(Push(text, labels[0]), labels[1..])
  }

  datatype Parsed = Parsed(name: bytes, end: nat)

  function ParseDomain(fold: Fold, buf: bytes, pos: nat): Option<Parsed>
  {
    var labels := Labels(fold, buf, pos, MAX_HOPS);
    if labels.None? then None
    else
      ParsedNameEnd(fold, buf, pos, MAX_HOPS);
      Some(Parsed(Spell([], labels.value), SkipName(buf, pos).value))
  }

  /** Whenever a name parses, skipping it succeeds and ends within the packet. */
  lemma {:induction false} ParsedNameEnd(fold: Fold, buf: bytes, pos: nat, hops: nat)
    requires Labels(fold, buf, pos, hops).Some?
    ensures SkipName(buf, pos).Some? && pos < SkipName(buf, pos).value <= |buf|
    decreases |buf| - pos
  {
    if 0 < buf[pos] < 64 {
      ParsedNameEnd(fold, buf, pos + 1 + buf[pos], hops);
    }
  }

  method SkipNameLoop(buf: bytes, offset: nat) returns (r: Option<nat>)
    ensures r == SkipName(buf, offset)
  {
    var pos := offset;
    while true
      invariant pos >= offset && SkipName(buf, pos) == SkipName(buf, offset)
      decreases |buf| - pos
    {
      if pos >= |buf| {
        return None;
      }
      if buf[pos] == 0 {
        return Some(pos + 1);
      } else if buf[pos] >= 192 {
        return Some(pos + 2);
      }
      pos := pos + 1 + buf[pos];
    }
  }

  // What is still to be parsed completes to the goal.
  ghost predicate Completes(fold: Fold, buf: bytes, start: nat, pos: nat, hops: nat, text: bytes, end: Option<nat>)
  {
    var rest, whole := Labels(fold, buf, pos, hops), Labels(fold, buf, start, MAX_HOPS);
    && (rest.None? <==> whole.None?)
    && (rest.Some? ==> Spell(text, rest.value) == Spell([], whole.value))
    && SkipName(buf, start) == (if end.Some? then end else SkipName(buf, pos))
  }

  lemma {:induction false} PointerStep(fold: Fold, buf: bytes, start: nat, offset: nat, hops: nat, text: bytes,
                                       end: Option<nat>)
    requires Completes(fold, buf, start, offset, hops, text, end) && hops > 0
    requires offset + 1 < |buf| && buf[offset] >= 192 && PointerTarget(buf, offset) < |buf|
    ensures Completes(fold, buf, start, PointerTarget(buf, offset), hops - 1, text,
                      if end.None? then Some(offset + 2) else end)
  {}

  lemma {:induction false} LabelStep(fold: Fold, buf: bytes, start: nat, offset: nat, hops: nat, text: bytes,
                                     end: Option<nat>)
    requires Completes(fold, buf, start, offset, hops, text, end)
    requires offset < |buf| && 0 < buf[offset] < 64 && offset + 1 + buf[offset] <= |buf|
    requires fold(buf[offset + 1..offset + 1 + buf[offset]]).Some?
    ensures var next := offset + 1 + buf[offset];
            Completes(fold, buf, start, next, hops, Push(text, fold(buf[offset + 1..next]).value), end)
  {}

  /** The loop of `parse_domain`. It stops on every packet, pointer loops
      included: each turn uses up a hop or moves right. */
  method ParseDomainLoop(fold: Fold, buf: bytes, start: nat) returns (r: Option<Parsed>)
    ensures r == ParseDomain(fold, buf, start)
  {
    var offset: nat, text: bytes, end: Option<nat>, hops := start, [], None, 0;
    while true
      invariant 0 <= hops <= MAX_HOPS
      invariant Completes(fold, buf, start, offset, MAX_HOPS - hops, text, end)
      decreases MAX_HOPS - hops, |buf| - offset
    {
      if offset >= |buf| {
        return None;
      }
      var len := buf[offset];
      if len >= 192 {
        if offset + 1 >= |buf| {
          return None;
        }
        var target := PointerTarget(buf, offset);
        if hops + 1 > MAX_HOPS || target >= |buf| {
          return None;
        }
        PointerStep(fold, buf, start, offset, MAX_HOPS - hops, text, end);
        hops := hops + 1;
        if end.None? {
          end := Some(offset + 2);
        }
        offset := target;
      } else if len >= 64 {
        return None;
      } else if len == 0 {
        return Some(Parsed(text, if end.Some? then end.value else offset + 1));
      } else if offset + 1 + len > |buf| {
        return None;
      } else {
        var part := fold(buf[offset + 1..offset + 1 + len]);
        if part.None? {
          return None;
        }
        LabelStep(fold, buf, start, offset, MAX_HOPS - hops, text, end);
        text := Push(text, part.value);
        offset := offset + 1 + len;
      }
    }
  }

  // ---- Pointer loops ------------------------------------------------------

  // Reading n items of the name at p leads to q and follows h pointers.
  ghost predicate Leads(buf: bytes, p: nat, q: nat, h: nat, n: nat)
    decreases n
  {
    if n == 0 then p == q && h == 0
    else
      && p < |buf|
      && if buf[p] >= 192 then p + 1 < |buf| && h > 0 && Leads(buf, PointerTarget(buf, p), q, h - 1, n - 1)
         else 0 < buf[p] < 64 && Leads(buf, p + 1 + buf[p], q, h, n - 1)
  }

  lemma {:induction false} ParsesOnwards(fold: Fold, buf: bytes, p: nat, q: nat, h: nat, n: nat, hops: nat)
    requires Leads(buf, p, q, h, n) && Labels(fold, buf, p, hops).Some?
    ensures h <= hops && Labels(fold, buf, q, hops - h).Some?
    decreases n
  {
    if n != 0 {
      if buf[p] >= 192 {
        ParsesOnwards(fold, buf, PointerTarget(buf, p), q, h - 1, n - 1, hops - 1);
      } else {
        ParsesOnwards(fold, buf, p + 1 + buf[p], q, h, n - 1, hops);
      }
    }
  }

  /** A name that comes back to itself through a pointer is always refused. */
  lemma {:induction false} PointerLoopRefused(fold: Fold, buf: bytes, p: nat, h: nat, n: nat, hops: nat)
    requires Leads(buf, p, p, h, n) && h > 0
    ensures Labels(fold, buf, p, hops).None?
    decreases hops
  {
    if Labels(fold, buf, p, hops).Some? {
      ParsesOnwards(fold, buf, p, p, h, n, hops);
      PointerLoopRefused(fold, buf, p, h, n, hops - h);
    }
  }

  // ---- Locality -----------------------------------------------------------

  // Skipping reads nothing but the name's own octets.
  lemma {:induction false} SkipNameLocal(a: bytes, p: nat, b: bytes, q: nat)
    requires SkipName(a, p).Some? && SkipName(a, p).value <= |a|
    requires p <= SkipName(a, p).value
    requires var n := SkipName(a, p).value - p; q + n <= |b| && a[p..p + n] == b[q..q + n]
    ensures SkipName(b, q) == Some(q + (SkipName(a, p).value - p))
    decreases |a| - p
  {
    var n := SkipName(a, p).value - p;
    SkipNameAdvances(a, p);
    assert a[p] == a[p..p + n][0] && b[q] == b[q..q + n][0];
    if 0 < a[p] < 192 {
      var k := 1 + a[p] as int;
      SkipNameAdvances(a, p + k);
      assert a[p + k..p + n] == a[p..p + n][k..] && b[q + k..q + n] == b[q..q + n][k..];
      SkipNameLocal(a, p + k, b, q + k);
    }
  }

  lemma {:induction false} SkipNameAdvances(a: bytes, p: nat)
    requires SkipName(a, p).Some?
    ensures p < |a| && p < SkipName(a, p).value <= |a| + 1
    decreases |a| - p
  {
    if 0 < a[p] < 192 {
      SkipNameAdvances(a, p + 1 + a[p]);
    }
  }

  // Skipping depends on the octets from pos on only, and moves with them.
  lemma {:induction false} SkipNameShift(a: bytes, p: nat, b: bytes, q: nat)
    requires |a| - p == |b| - q
    requires p <= |a| ==> a[p..] == b[q..]
    ensures SkipName(a, p).None? <==> SkipName(b, q).None?
    ensures SkipName(a, p).Some? ==> SkipName(b, q).value - q == SkipName(a, p).value - p
    decreases |a| - p
  {
    if p < |a| {
      assert a[p] == a[p..][0] && b[q] == b[q..][0];
      var k := 1 + a[p] as int;
      if 0 < a[p] < 192 {
        if p + k <= |a| {
          assert a[p + k..] == a[p..][k..] && b[q + k..] == b[q..][k..];
        }
        SkipNameShift(a, p + k, b, q + k);
      }
    }
  }

  // ---- Uncompressed names -------------------------------------------------

  predicate ValidLabels(ls: seq<bytes>)
  {
    forall i :: 0 <= i < |ls| ==> 1 <= |ls[i]| <= 63
  }

  function EncodeName(ls: seq<bytes>): (enc: bytes)
    requires ValidLabels(ls)
    ensures |enc| >= 1
  {
    if ls == [] then [0] else [|ls[0]|] + ls[0] + EncodeName(ls[1..])
  }

  // Folding the labels one by one.
  ghost predicate Folded(fold: Fold, ls: seq<bytes>, fs: seq<bytes>)
  {
    |ls| == |fs| && forall i :: 0 <= i < |ls| ==> fold(ls[i]) == Some(fs[i])
  }

  /** Parsing an encoded name gives back its folded labels and its end. */
  lemma {:induction false} EncodedNameParses(fold: Fold, ls: seq<bytes>, fs: seq<bytes>, buf: bytes, pos: nat, hops: nat)
    requires ValidLabels(ls) && Folded(fold, ls, fs)
    requires pos + |EncodeName(ls)| <= |buf| && buf[pos..pos + |EncodeName(ls)|] == EncodeName(ls)
    ensures Labels(fold, buf, pos, hops) == Some(fs)
    ensures SkipName(buf, pos) == Some(pos + |EncodeName(ls)|)
    decreases |ls|
  {
    var enc := EncodeName(ls);
    assert buf[pos] == buf[pos..pos + |enc|][0] == enc[0];
    if ls != [] {
      var tail, next := EncodeName(ls[1..]), pos + 1 + |ls[0]|;
      EncodedHead(ls[0], tail, buf, pos, enc);
      EncodedNameParses(fold, ls[1..], fs[1..], buf, next, hops);
      assert [fs[0]] + fs[1..] == fs;
    }
  }

  // The first label and the rest, where a name is written.
  lemma EncodedHead(l: bytes, tail: bytes, buf: bytes, pos: nat, enc: bytes)
    requires |l| < 256 && enc == [|l|] + l + tail && pos + |enc| <= |buf| && buf[pos..pos + |enc|] == enc
    ensures buf[pos] == |l| && buf[pos + 1..pos + 1 + |l|] == l
    ensures buf[pos + 1 + |l|..pos + 1 + |l| + |tail|] == tail
  {
    var k := 1 + |l|;
    SliceSlice(buf, pos, pos + |enc|, 1, k);
    SliceSlice(buf, pos, pos + |enc|, k, |enc|);
    assert buf[pos] == buf[pos..pos + |enc|][0];
    assert enc[1..k] == l && enc[k..|enc|] == tail;
  }

  // No octet of the name at pos is a pointer.
  predicate Uncompressed(buf: bytes, pos: nat)
    decreases |buf| - pos
  {
    pos < |buf| && buf[pos] < 64 && (buf[pos] != 0 ==> Uncompressed(buf, pos + 1 + buf[pos]))
  }

  // The octets below hi, without those in the hole.
  predicate Fixed(i: nat, hi: nat, hole: set<nat>)
  {
    i < hi && i !in hole
  }

  // Every octet that is read for the name at pos, pointers followed, is fixed.
  predicate ReadsFixed(buf: bytes, pos: nat, hops: nat, hi: nat, hole: set<nat>)
    requires hi <= |buf|
    decreases hops, |buf| - pos
  {
    && Fixed(pos, hi, hole)
    && if buf[pos] >= 192 then
         && Fixed(pos + 1, hi, hole) && hops > 0
         && ReadsFixed(buf, PointerTarget(buf, pos), hops - 1, hi, hole)
       else
         && buf[pos] < 64 && (forall i :: pos < i <= pos + buf[pos] ==> Fixed(i, hi, hole))
         && (buf[pos] != 0 ==> ReadsFixed(buf, pos + 1 + buf[pos], hops, hi, hole))
  }

  /** A name is read alike in packets that agree on the octets read for it, pointers followed. */
  lemma {:induction false} ReadsLocal(fold: Fold, a: bytes, b: bytes, pos: nat, hops: nat, hi: nat, hole: set<nat>)
    requires hi <= |a| && hi <= |b| && ReadsFixed(a, pos, hops, hi, hole)
    requires forall i :: 0 <= i < hi && Fixed(i, hi, hole) ==> a[i] == b[i]
    ensures Labels(fold, b, pos, hops) == Labels(fold, a, pos, hops)
    decreases hops, |a| - pos
  {
    if a[pos] >= 192 {
      assert PointerTarget(b, pos) == PointerTarget(a, pos);
      ReadsLocal(fold, a, b, PointerTarget(a, pos), hops - 1, hi, hole);
    } else if a[pos] != 0 {
      var next := pos + 1 + a[pos];
      ReadsLocal(fold, a, b, next, hops, hi, hole);
      assert a[pos + 1..next] == b[pos + 1..next];
    }
  }

  // So is where it ends.
  lemma {:induction false} ReadsEnd(a: bytes, b: bytes, pos: nat, hops: nat, hi: nat, hole: set<nat>)
    requires hi <= |a| && hi <= |b| && ReadsFixed(a, pos, hops, hi, hole)
    requires forall i :: 0 <= i < hi && Fixed(i, hi, hole) ==> a[i] == b[i]
    ensures SkipName(b, pos) == SkipName(a, pos) && SkipName(a, pos).Some?
    decreases |a| - pos
  {
    if 0 < a[pos] < 192 {
      ReadsEnd(a, b, pos + 1 + a[pos], hops, hi, hole);
    }
  }

  // An uncompressed name is read from its own octets alone.
  lemma {:induction false} UncompressedFixed(buf: bytes, pos: nat, hops: nat, hi: nat, hole: set<nat>)
    requires Uncompressed(buf, pos) && SkipName(buf, pos).Some? && SkipName(buf, pos).value <= hi <= |buf|
    requires forall i :: i in hole ==> i < pos
    ensures ReadsFixed(buf, pos, hops, hi, hole)
    decreases |buf| - pos
  {
    SkipNameAdvances(buf, pos);
    if buf[pos] != 0 {
      SkipNameAdvances(buf, pos + 1 + buf[pos]);
      UncompressedFixed(buf, pos + 1 + buf[pos], hops, hi, hole);
    }
  }
}
