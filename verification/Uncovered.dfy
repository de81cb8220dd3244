// What a scan finds after an OPT was appended: the appended one, or one that the raised
// ARCOUNT uncovers in the last octets of the packet.

module Uncovered {
  import opened Bytes
  import opened Keys
  import opened Names
  import opened Message
  import opened Edns
  import opened ClientSubnet

  // ---- The octets that are appended ---------------------------------------

  // The octets of a client-subnet option.
  function EcsOctets(s: Subnet): (b: bytes)
    ensures |b| == 11
  {
    [0, 8, 0, 7, 0, 1, 24, 0] + s
  }

  lemma EncodedEcs(s: Subnet)
    ensures EncodeOption(Ecs(s)) == EcsOctets(s) && EncodeOptions([Ecs(s)]) == EcsOctets(s)
  {
    assert [Ecs(s)][1..] == [];
    assert Be16(CODE_ECS) == [0, 8] && Be16(7) == [0, 7];
  }

  // The whole record: root name, type OPT, size 4096, zeros, eleven octets of options.
  function Appended(s: Subnet): (b: bytes)
    ensures |b| == 22
  {
    [0, 0, 41, 16, 0, 0, 0, 0, 0, 0, 11] + EcsOctets(s)
  }

  lemma RecordAppended(payload: bytes, s: Subnet)
    ensures OptBytes(Synthetic(payload), EncodeOptions([Ecs(s)])) == Appended(s)
  {
    EncodedEcs(s);
    assert Be16(TYPE_OPT) == [0, 41] && Be16(4096) == [16, 0] && Be16(0) == [0, 0] && Be16(11) == [0, 11];
  }

  lemma {:induction false} SplicedAtEnd(payload: bytes, o: EdnsOpt, enc: bytes, rec: bytes)
    requires Fits(payload, o) && o.start == o.end == |payload| && OptBytes(o, enc) == rec
    ensures Spliced(payload, o, enc) == payload + rec
  {
    assert payload[..|payload|] == payload && payload[|payload|..] == [];
  }

  // The packet with the record appended, before ARCOUNT is raised.
  lemma SetIsBumped(p: bytes, s: Subnet)
    requires FindOpt(p).None?
    ensures SetEcs(p, Some(s)) == BumpArcount(p + Appended(s))
  {
    RecordAppended(p, s);
    SplicedAtEnd(p, Synthetic(p), EncodeOptions([Ecs(s)]), Appended(s));
  }

  // The packets agree outside ARCOUNT.
  ghost predicate SameButCount(a: bytes, b: bytes)
  {
    |a| == |b| >= 12 && forall i :: 0 <= i < |a| && i != 10 && i != 11 ==> a[i] == b[i]
  }

  lemma SetSameButCount(p: bytes, s: Subnet, out: bytes)
    requires FindOpt(p).None? && out == SetEcs(p, Some(s))
    ensures SameButCount(p + Appended(s), out)
    ensures |p| >= 12 ==> Ar(out) == (Ar(p) + 1) % 0x1_0000
  {
    SetIsBumped(p, s);
    if |p| >= 12 {
      assert Ar(p + Appended(s)) == Ar(p);
    }
  }

  // ---- Where an OPT can start ---------------------------------------------

  // Among the octets appended, an OPT type stands only at its own place.
  lemma TypeInAppended(s: Subnet, i: nat)
    requires i <= 12 && U16At(Appended(s), i) == TYPE_OPT
    ensures i == 1
  {
    var a := Appended(s);
    assert a[..19] == [0, 0, 41, 16, 0, 0, 0, 0, 0, 0, 11, 0, 8, 0, 7, 0, 1, 24, 0];
  }

  // An OPT of the longer packet has its type within the old one, or is the appended one.
  lemma OptBodyInside(p: bytes, s: Subnet, b: bytes, r: Rr)
    requires SameButCount(p + Appended(s), b) && r.body >= 12 && In(b, r) && Type(b, r) == TYPE_OPT
    ensures r.body <= |p| + 1
  {
    if r.body >= |p| {
      var i := r.body - |p|;
      assert U16At(Appended(s), i) == TYPE_OPT;
      TypeInAppended(s, i);
    }
  }

  lemma FoundInside(p: bytes, s: Subnet, b: bytes, o: EdnsOpt)
    requires SameButCount(p + Appended(s), b) && FindOpt(b) == Some(o)
    ensures 12 <= o.start <= |p| && OptHere(b, o.start, o)
  {
    FoundHere(b, o);
    FoundFits(b);
    var r := RrAt(b, o.start).value;
    SkipNameAdvances(b, o.start);
    OptBodyInside(p, s, b, r);
  }

  // ---- What is found ------------------------------------------------------

  // The first k additional records of p end at x, and none of them is an OPT.
  ghost predicate Boundary(p: bytes, k: nat, x: nat)
  {
    && |p| >= 12 && AdditionalStart(p).Some? && x <= |p|
    && var start := AdditionalStart(p).value;
       && Walk(p, start, k).Some? && WalkEnd(start, Walk(p, start, k).value) == x && ScanOpt(p, start, k).None?
  }

  // Behind some of the records announced, p with the appended octets holds the OPT o.
  ghost predicate Uncovers(p: bytes, s: Subnet, o: EdnsOpt)
  {
    && |p| >= 12 && Ar(p) < 0xFFFF && OptHere(p + Appended(s), o.start, o)
    && exists k :: 0 <= k <= Ar(p) && Boundary(p, k, o.start)
  }

  lemma {:induction false} BoundaryAfterStart(p: bytes, k: nat, x: nat)
    requires Boundary(p, k, x)
    ensures 12 <= AdditionalStart(p).value <= x
  {
    StartAfterHeader(p);
    WalkEndAdvances(p, AdditionalStart(p).value, k);
  }

  // A record is read behind the header, so ARCOUNT does not matter to it.
  lemma {:induction false} OptSameButCount(a: bytes, b: bytes, o: EdnsOpt)
    requires SameButCount(a, b) && o.start >= 12 && OptHere(a, o.start, o)
    ensures OptHere(b, o.start, o)
  {
    var x := o.start;
    var r := RrAt(a, x).value;
    SkipNameAdvances(a, x);
    assert a[x..] == b[x..];
    RrAtShift(a, x, b, x);
    assert Data(a, r) == Data(b, r);
  }

  lemma {:induction false} UncoveredFound(p: bytes, b: bytes, c: bytes, k: nat, o: EdnsOpt)
    requires |p| <= |c| && c[..|p|] == p && SameButCount(c, b) && |p| >= 12
    requires Boundary(p, k, o.start) && k < Ar(b) && OptHere(c, o.start, o)
    ensures FindOpt(b) == Some(o)
  {
    var start := AdditionalStart(p).value;
    BoundaryAfterStart(p, k, o.start);
    OptSameButCount(c, b, o);
    forall i | 0 <= i < |p| && i != 10 && i != 11 ensures p[i] == b[i] {
      assert c[..|p|][i] == c[i];
    }
    SameAdditionalStart(p, b);
    ScanAppended(p, b, start, k, Ar(b), o);
  }

  lemma {:induction false} FoundUncovered(p: bytes, b: bytes, c: bytes, o: EdnsOpt) returns (k: nat)
    requires 12 <= |p| <= |c| && c[..|p|] == p && SameButCount(c, b)
    requires FindOpt(b) == Some(o) && 12 <= o.start <= |p| && OptHere(b, o.start, o)
    ensures k < Ar(b) && Boundary(p, k, o.start) && OptHere(c, o.start, o)
  {
    FoundFits(b);
    var start := AdditionalStart(b).value;
    StartAfterHeader(b);
    forall i | 0 <= i < |p| && i != 10 && i != 11 ensures p[i] == b[i] {
      assert c[..|p|][i] == c[i];
    }
    SameAdditionalStart(b, p);
    k := ScanReached(p, b, start, Ar(b));
    OptSameButCount(b, c, o);
  }

  lemma {:induction false} FoundMeansUncovers(p: bytes, s: Subnet, o: EdnsOpt, out: bytes, c: bytes)
    requires FindOpt(p).None? && out == SetEcs(p, Some(s)) && c == p + Appended(s) && FindOpt(out) == Some(o)
    ensures Uncovers(p, s, o)
  {
    SetSameButCount(p, s, out);
    FoundInside(p, s, out, o);
    PrefixOf(p, s);
    var k := FoundUncovered(p, out, c, o);
    UncoversBy(p, s, o, c, k);
  }

  lemma PrefixOf(p: bytes, s: Subnet)
    ensures (p + Appended(s))[..|p|] == p
  {}

  lemma {:induction false} UncoversBy(p: bytes, s: Subnet, o: EdnsOpt, c: bytes, k: nat)
    requires |p| >= 12 && c == p + Appended(s) && OptHere(c, o.start, o) && Boundary(p, k, o.start)
    requires k < (Ar(p) + 1) % 0x1_0000
    ensures Uncovers(p, s, o)
  {
    assert 0 <= k <= Ar(p) && Boundary(p, k, o.start);
  }

  lemma {:induction false} UncoversMeansFound(p: bytes, s: Subnet, o: EdnsOpt, out: bytes, c: bytes)
    requires FindOpt(p).None? && out == SetEcs(p, Some(s)) && c == p + Appended(s) && Uncovers(p, s, o)
    ensures FindOpt(out) == Some(o)
  {
    SetSameButCount(p, s, out);
    PrefixOf(p, s);
    var k :| 0 <= k <= Ar(p) && Boundary(p, k, o.start);
    UncoveredFound(p, out, c, k, o);
  }

  /** For every packet without an OPT: scanning after injection finds o exactly when ARCOUNT did
      not wrap, and o is what stands behind some of the announced records in the packet
      followed by the appended octets. */
  lemma {:induction false} FoundExactly(p: bytes, s: Subnet, o: EdnsOpt, out: bytes)
    requires FindOpt(p).None? && out == SetEcs(p, Some(s))
    ensures FindOpt(out) == Some(o) <==> Uncovers(p, s, o)
  {
    if FindOpt(out) == Some(o) {
      FoundMeansUncovers(p, s, o, out, p + Appended(s));
    }
    if Uncovers(p, s, o) {
      UncoversMeansFound(p, s, o, out, p + Appended(s));
    }
  }

  // ---- Uncovered DO bits --------------------------------------------------

  // At x stands an OPT with DO set. Its last octets may be missing: the length field is read on
  // into the octets appended, and so may its data be.
  predicate DoAt(p: bytes, x: nat)
  {
    var name := SkipName(p, x);
    && name.Some? && name.value + 7 <= |p|
    && var b := name.value;
       && U16At(p, b) == TYPE_OPT && p[b + 6] >= 128
       && b + 10 + U16At(p + [0, 0, 41], b + 8) <= |p| + 22
  }

  // Behind some of the records announced stands such an OPT.
  ghost predicate HidesDo(p: bytes)
  {
    |p| >= 12 && Ar(p) < 0xFFFF && exists k, x :: 0 <= k <= Ar(p) && Boundary(p, k, x) && DoAt(p, x)
  }

  lemma AppendedIsLow(s: Subnet, i: nat)
    requires i < 19
    ensures Appended(s)[i] < 128
  {
    assert Appended(s)[..19] == [0, 0, 41, 16, 0, 0, 0, 0, 0, 0, 11, 0, 8, 0, 7, 0, 1, 24, 0];
    assert Appended(s)[i] == Appended(s)[..19][i];
  }

  lemma LengthFieldSame(p: bytes, s: Subnet, b: nat)
    requires b + 7 <= |p|
    ensures U16At(p + [0, 0, 41], b + 8) == U16At(p + Appended(s), b + 8)
  {}

  lemma {:induction false} DoMeansDoAt(p: bytes, s: Subnet, c: bytes, o: EdnsOpt)
    requires c == p + Appended(s) && OptHere(c, o.start, o) && o.flags >= 0x8000
    ensures DoAt(p, o.start)
  {
    var x := o.start;
    var r := RrAt(c, x).value;
    var b := r.body;
    SkipNameAdvances(c, x);
    assert c[b + 6] >= 128;
    if b + 6 >= |p| {
      AppendedIsLow(s, b + 6 - |p|);
    }
    assert c[x..b] == p[x..b];
    SkipNameLocal(c, x, p, x);
    LengthFieldSame(p, s, b);
  }

  lemma {:induction false} DoAtMeansDo(p: bytes, s: Subnet, c: bytes, x: nat) returns (o: EdnsOpt)
    requires c == p + Appended(s) && DoAt(p, x)
    ensures o.start == x && OptHere(c, x, o) && o.flags >= 0x8000
  {
    var b := SkipName(p, x).value;
    SkipNameAdvances(p, x);
    assert c[x..b] == p[x..b];
    SkipNameLocal(p, x, c, x);
    LengthFieldSame(p, s, b);
    var r := Rr(x, b, U16At(c, b + 8));
    assert RrAt(c, x) == Some(r);
    o := OptOf(c, r);
  }

  /** For every packet without an OPT: after injection a scan shows the DO bit exactly when the
      packet hides it, whatever the subnet. */
  lemma {:induction false} DoShownExactly(p: bytes, s: Subnet, out: bytes)
    requires FindOpt(p).None? && out == SetEcs(p, Some(s))
    ensures FindOpt(out).Some? && FindOpt(out).value.flags >= 0x8000 <==> HidesDo(p)
  {
    var c := p + Appended(s);
    if FindOpt(out).Some? && FindOpt(out).value.flags >= 0x8000 {
      var o := FindOpt(out).value;
      FoundMeansUncovers(p, s, o, out, c);
      DoMeansDoAt(p, s, c, o);
    }
    if HidesDo(p) {
      var k, x :| 0 <= k <= Ar(p) && Boundary(p, k, x) && DoAt(p, x);
      var o := DoAtMeansDo(p, s, c, x);
      UncoversMeansFound(p, s, o, out, c);
    }
  }
}
