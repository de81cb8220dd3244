// Client-subnet injection: the code path of `set_ecs_ipv4_subnet` and what its
// output means when it is scanned again.

module ClientSubnet {
  import opened Bytes
  import opened Keys
  import opened Names
  import opened Message
  import opened Edns

  // ---- The code path ------------------------------------------------------

  method RebuildWithNewOpt(payload: bytes, existing: EdnsOpt, newOptions: bytes) returns (r: Option<bytes>)
    requires Fits(payload, existing)
    requires existing.start == existing.end == |payload| ==> |newOptions| >= 1
    ensures r == Some(
                   if existing.start == existing.end == |payload| then BumpArcount(Spliced(payload, existing, newOptions))
                   else Spliced(payload, existing, newOptions))
  {
    var out := payload[..existing.start];
    out := out + OptHeader(existing, |newOptions| % 0x1_0000);
    out := out + newOptions;
    out := out + payload[existing.end..];
    assert out == Spliced(payload, existing, newOptions);
    if existing.start == existing.end && existing.start == |payload| {
      if |out| < 12 {
        return None;
      }
      var count := (U16At(out, 10) + 1) % 0x1_0000;
      out := out[10 := count / 256];
      out := out[11 := count % 256];
    }
    r := Some(out);
  }

  method RetainOthers(xs: seq<EdnsOption>) returns (ys: seq<EdnsOption>)
    requires AllSized(xs)
    ensures ys == Without(xs, CODE_ECS)
  {
    ys := [];
    assert xs[0..] == xs;
    for i := 0 to |xs|
      invariant ys + Without(xs[i..], CODE_ECS) == Without(xs, CODE_ECS)
    {
      assert xs[i..][1..] == xs[i + 1..];
      ghost var rest := Without(xs[i + 1..], CODE_ECS);
      if xs[i].code != CODE_ECS {
        assert ys + ([xs[i]] + rest) == ys + [xs[i]] + rest;
        ys := ys + [xs[i]];
      }
    }
  }

  method Serialize(xs: seq<EdnsOption>) returns (b: bytes)
    requires AllSized(xs)
    ensures b == EncodeOptions(xs)
  {
    b := [];
    assert xs[0..] == xs;
    for i := 0 to |xs|
      invariant b + EncodeOptions(xs[i..]) == EncodeOptions(xs)
    {
      assert xs[i..][1..] == xs[i + 1..];
      ghost var rest := EncodeOptions(xs[i + 1..]);
      assert b + (EncodeOption(xs[i]) + rest) == b + EncodeOption(xs[i]) + rest;
      b := b + EncodeOption(xs[i]);
    }
  }

  /** The injection never fails: the too-short check in the rebuild is dead code. */
  method SetEcsIpv4Subnet(payload: bytes, subnet: Option<Subnet>) returns (r: Option<bytes>)
    ensures r == Some(SetEcs(payload, subnet))
    ensures subnet.None? ==> r == Some(payload)
  {
    if subnet.None? {
      return Some(payload);
    }
    var ecs := Ecs(subnet.value);
    var found := FindOptRecord(payload);
    if found.Some? {
      FoundFits(payload);
      var options := ParseOptionsLoop(found.value.options);
      options := RetainOthers(options);
      var encoded := Serialize(options + [ecs]);
      r := RebuildWithNewOpt(payload, found.value, encoded);
    } else {
      var encoded := Serialize([ecs]);
      EncodedSize([], subnet.value);
      r := RebuildWithNewOpt(payload, Synthetic(payload), encoded);
    }
  }

  // ---- Sizes --------------------------------------------------------------

  lemma {:induction false} EncodeAppend(xs: seq<EdnsOption>, x: EdnsOption)
    requires AllSized(xs) && Sized(x)
    ensures EncodeOptions(xs + [x]) == EncodeOptions(xs) + EncodeOption(x)
    decreases |xs|
  {
    if xs == [] {
      assert xs + [x] == [x] && [x][1..] == [];
      assert EncodeOptions([x]) == EncodeOption(x) + EncodeOptions([x][1..]);
    } else {
      assert (xs + [x])[1..] == xs[1..] + [x];
      EncodeAppend(xs[1..], x);
    }
  }

  // The subnet option adds eleven octets, whatever the subnet.
  lemma EncodedSize(xs: seq<EdnsOption>, s: Subnet)
    requires AllSized(xs)
    ensures |EncodeOptions(xs + [Ecs(s)])| == |EncodeOptions(xs)| + 11
  {
    EncodeAppend(xs, Ecs(s));
  }

  // The options that survive, as octets.
  function KeptSize(options: bytes): nat
  {
    |EncodeOptions(Without(ParseOptions(options), CODE_ECS))|
  }

  lemma {:induction false} WithoutNoLonger(xs: seq<EdnsOption>)
    requires AllSized(xs)
    ensures |EncodeOptions(Without(xs, CODE_ECS))| <= |EncodeOptions(xs)|
    decreases |xs|
  {
    if xs != [] {
      WithoutNoLonger(xs[1..]);
      var ys := Without(xs, CODE_ECS);
      if xs[0].code != CODE_ECS {
        assert ys[1..] == Without(xs[1..], CODE_ECS);
      }
    }
  }

  lemma KeptNoLonger(options: bytes)
    ensures KeptSize(options) <= |options|
  {
    WithoutNoLonger(ParseOptions(options));
    EncodedNoLonger(options);
  }

  // ---- Scanning what was written ------------------------------------------

  lemma {:induction false} WalkPrefix(a: bytes, b: bytes, pos: nat, n: nat)
    requires Walk(a, pos, n).Some? && WalkEnd(pos, Walk(a, pos, n).value) <= |b|
    requires forall i :: pos <= i < WalkEnd(pos, Walk(a, pos, n).value) && i < |a| ==> a[i] == b[i]
    ensures Walk(b, pos, n) == Walk(a, pos, n)
    decreases n
  {
    if n != 0 {
      var r := RrAt(a, pos).value;
      SkipNameAdvances(a, pos);
      WalkEndAdvances(a, r.End(), n - 1);
      var rest := Walk(a, r.End(), n - 1).value;
      assert WalkEnd(pos, [r] + rest) == WalkEnd(r.End(), rest);
      RrAtLocal(a, b, pos);
      WalkPrefix(a, b, r.End(), n - 1);
    }
  }

  // Packets with the same section counts up to ARCOUNT and the same octets up to
  // the additional section start that section at the same place.
  lemma {:induction false} SameAdditionalStart(a: bytes, b: bytes)
    requires |a| >= 12 && |b| >= 12 && AdditionalStart(a).Some?
    requires AdditionalStart(a).value <= |a| && AdditionalStart(a).value <= |b|
    requires forall i :: 4 <= i < 10 ==> a[i] == b[i]
    requires forall i :: 12 <= i < AdditionalStart(a).value ==> a[i] == b[i]
    ensures AdditionalStart(b) == AdditionalStart(a)
  {
    assert Qd(b) == Qd(a) && An(b) == An(a) && Ns(b) == Ns(a);
    var q := SkipQuestions(a, 12, Qd(a)).value;
    WalkEndAdvances(a, q, An(a) + Ns(a));
    SkipQuestionsAdvances(a, 12, Qd(a));
    SkipQuestionsLocal(a, b, 12, Qd(a));
    WalkPrefix(a, b, q, An(a) + Ns(a));
  }

  lemma SameRecord(a: bytes, b: bytes, pos: nat)
    requires RrAt(a, pos).Some? && RrAt(a, pos).value.End() <= |b|
    requires forall i :: pos <= i < RrAt(a, pos).value.End() ==> a[i] == b[i]
    ensures pos < RrAt(a, pos).value.End() && RrAt(b, pos) == RrAt(a, pos)
    ensures Type(b, RrAt(b, pos).value) == Type(a, RrAt(a, pos).value)
  {
    SkipNameAdvances(a, pos);
    RrAtLocal(a, b, pos);
  }

  // Replacing the record that the scan stops at.
  lemma {:induction false} ScanReplaced(a: bytes, b: bytes, pos: nat, n: nat, o': EdnsOpt)
    requires ScanOpt(a, pos, n).Some? && ScanOpt(a, pos, n).value.start == o'.start
    requires o'.start <= |a| && o'.start <= |b|
    requires forall i :: pos <= i < o'.start ==> a[i] == b[i]
    requires OptHere(b, o'.start, o')
    ensures ScanOpt(b, pos, n) == Some(o')
    decreases n
  {
    var r := RrAt(a, pos).value;
    if Type(a, r) != TYPE_OPT {
      ScanFits(a, r.End(), n - 1);
      SameRecord(a, b, pos);
      ScanReplaced(a, b, r.End(), n - 1, o');
    }
  }

  // The record at pos is the OPT record o.
  ghost predicate OptHere(buf: bytes, pos: nat, o: EdnsOpt)
  {
    var r := RrAt(buf, pos);
    r.Some? && Type(buf, r.value) == TYPE_OPT && OptOf(buf, r.value) == o
  }

  // An OPT whose options are `enc` cut to their 16-bit length.
  function WithOptions(o: EdnsOpt, enc: bytes): EdnsOpt
  {
    var n := |enc| % 0x1_0000;
    o.(end := o.start + 11 + n, options := enc[..n])
  }

  // The octets of an OPT record are read back as that record.
  lemma {:induction false} OptReadBack(buf: bytes, opt: EdnsOpt, options: bytes)
    requires opt.size < 0x1_0000 && opt.flags < 0x1_0000
    requires opt.start + 11 + |options| <= |buf|
    requires buf[opt.start..opt.start + 11 + |options|] == OptBytes(opt, options)
    ensures OptHere(buf, opt.start, WithOptions(opt, options))
  {
    var pos := opt.start;
    var n, all := |options| % 0x1_0000, OptBytes(opt, options);
    forall i | 0 <= i < |all| ensures buf[pos + i] == all[i] {
      assert buf[pos..pos + 11 + |options|][i] == buf[pos + i];
    }
    HeaderFields(opt, n);
    var h := OptHeader(opt, n);
    assert forall i :: 0 <= i < 11 ==> buf[pos + i] == h[i];
    assert buf[pos] == 0;
    assert U16At(buf, pos + 1) == U16At(h, 1) && U16At(buf, pos + 3) == U16At(h, 3);
    assert U16At(buf, pos + 7) == U16At(h, 7) && U16At(buf, pos + 9) == U16At(h, 9);
    assert buf[pos + 11..pos + 11 + n] == options[..n] by {
      assert forall i :: 0 <= i < n ==> all[11 + i] == options[i];
    }
  }

  lemma HeaderFields(opt: EdnsOpt, n: nat)
    requires opt.size < 0x1_0000 && opt.flags < 0x1_0000 && n < 0x1_0000
    ensures var h := OptHeader(opt, n);
            && h[0] == 0 && U16At(h, 1) == TYPE_OPT && U16At(h, 3) == opt.size
            && h[5] == opt.rcode && h[6] == opt.version && U16At(h, 7) == opt.flags && U16At(h, 9) == n
  {
    var h := OptHeader(opt, n);
    var t, s, f, l := Be16(TYPE_OPT), Be16(opt.size), Be16(opt.flags), Be16(n);
    assert h == [0, t[0], t[1], s[0], s[1], opt.rcode, opt.version, f[0], f[1], l[0], l[1]];
  }

  // Octets of a splice, part by part.
  lemma SpliceParts(payload: bytes, opt: EdnsOpt, options: bytes)
    requires Fits(payload, opt)
    ensures var out, k := Spliced(payload, opt, options), opt.start + 11 + |options|;
            && k <= |out| && out[..opt.start] == payload[..opt.start]
            && out[opt.start..k] == OptBytes(opt, options) && out[k..] == payload[opt.end..]
            && |out| == |payload| - (opt.end - opt.start) + 11 + |options|
  {
    var a, b, c := payload[..opt.start], OptBytes(opt, options), payload[opt.end..];
    var out := Spliced(payload, opt, options);
    assert out == a + b + c;
    assert out[..|a|] == a && out[|a|..|a| + |b|] == b && out[|a| + |b|..] == c;
  }

  // o' is o with its options replaced, and they read back as wanted exactly when
  // they fit a 16-bit length.
  ghost predicate Rewritten(o: EdnsOpt, o': EdnsOpt, s: Subnet)
  {
    var wanted := NewOptions(o.options, s);
    && o'.start == o.start && o'.size == o.size && o'.rcode == o.rcode
    && o'.version == o.version && o'.flags == o.flags
    && (KeptSize(o.options) + 11 < 0x1_0000 ==>
          o'.options == EncodeOptions(wanted) && o'.end == o.start + 11 + |o'.options|)
    && (ParseOptions(o'.options) == wanted <==> KeptSize(o.options) + 11 < 0x1_0000)
  }

  /** Rewriting an OPT that was there: the output holds the rewritten OPT at the same
      place with the old size, rcode, version and flags, and every other octet is
      unchanged. Its options are the old ones without code 8, in order, plus one
      client-subnet option, exactly when they fit a 16-bit length. */
  lemma EcsRewritesExisting(payload: bytes, s: Subnet)
    requires FindOpt(payload).Some?
    ensures var o, out := FindOpt(payload).value, SetEcs(payload, Some(s));
            var k := o.start + 11 + KeptSize(o.options) + 11;
            && o.start <= o.end <= |payload| && k <= |out|
            && out[..o.start] == payload[..o.start] && out[k..] == payload[o.end..]
            && FindOpt(out).Some? && Rewritten(o, FindOpt(out).value, s)
  {
    var o := FindOpt(payload).value;
    RewrittenFound(payload, s);
    OptionsShort(payload);
    TruncatedOptions(o, s);
    EncodedSize(Without(ParseOptions(o.options), CODE_ECS), s);
  }

  function Truncated(o: EdnsOpt, s: Subnet): EdnsOpt
  {
    WithOptions(o, EncodeOptions(NewOptions(o.options, s)))
  }

  // What the scan of the output finds, truncation included.
  lemma RewrittenFound(payload: bytes, s: Subnet)
    requires FindOpt(payload).Some?
    ensures var o, out := FindOpt(payload).value, SetEcs(payload, Some(s));
            var enc := EncodeOptions(NewOptions(o.options, s));
            var k := o.start + 11 + |enc|;
            && 12 <= o.start < o.end <= |payload| && k <= |out|
            && out[..o.start] == payload[..o.start] && out[k..] == payload[o.end..]
            && FindOpt(out) == Some(Truncated(o, s))
  {
    FoundFits(payload);
    var o := FindOpt(payload).value;
    var enc := EncodeOptions(NewOptions(o.options, s));
    SpliceParts(payload, o, enc);
    OptReadBack(Spliced(payload, o, enc), o, enc);
    SplicedScan(payload, Spliced(payload, o, enc), Truncated(o, s));
  }

  lemma {:induction false} TruncatedOptions(o: EdnsOpt, s: Subnet)
    requires |o.options| < 0x1_0000
    ensures Rewritten(o, Truncated(o, s), s)
  {
    var wanted := NewOptions(o.options, s);
    var enc := EncodeOptions(wanted);
    EncodedSize(Without(ParseOptions(o.options), CODE_ECS), s);
    KeptNoLonger(o.options);
    ParseEncoded(wanted);
    var cut := enc[..|enc| % 0x1_0000];
    if |enc| >= 0x1_0000 {
      EncodedNoLonger(cut);
    } else {
      assert cut == enc;
    }
  }

  // RDATA is at most 65535 octets long.
  lemma OptionsShort(buf: bytes)
    requires FindOpt(buf).Some?
    ensures |FindOpt(buf).value.options| < 0x1_0000
  {
    ScanShort(buf, AdditionalStart(buf).value, Ar(buf));
  }

  lemma {:induction false} ScanShort(buf: bytes, pos: nat, n: nat)
    requires ScanOpt(buf, pos, n).Some?
    ensures |ScanOpt(buf, pos, n).value.options| < 0x1_0000
    decreases n
  {
    var r := RrAt(buf, pos).value;
    assert r.rdlen == U16At(buf, r.body + 8);
    if Type(buf, r) != TYPE_OPT {
      ScanShort(buf, r.End(), n - 1);
    }
  }

  // A packet that differs from the old one only from its OPT on is scanned up to that place.
  lemma {:induction false} ScanHere(buf: bytes, pos: nat, n: nat)
    requires ScanOpt(buf, pos, n).Some?
    ensures OptHere(buf, ScanOpt(buf, pos, n).value.start, ScanOpt(buf, pos, n).value)
    decreases n
  {
    var r := RrAt(buf, pos).value;
    if Type(buf, r) != TYPE_OPT {
      ScanHere(buf, r.End(), n - 1);
    }
  }

  lemma FoundHere(buf: bytes, o: EdnsOpt)
    requires FindOpt(buf) == Some(o)
    ensures OptHere(buf, o.start, o) && Fits(buf, o) && o.start < o.end && |o.options| < 0x1_0000
  {
    ScanHere(buf, AdditionalStart(buf).value, Ar(buf));
    FoundFits(buf);
    OptionsShort(buf);
  }

  lemma SplicedScan(payload: bytes, out: bytes, o': EdnsOpt)
    requires FindOpt(payload).Some? && o'.start == FindOpt(payload).value.start
    requires o'.start <= |payload| && o'.start <= |out| && out[..o'.start] == payload[..o'.start]
    requires OptHere(out, o'.start, o')
    ensures FindOpt(out) == Some(o')
  {
    FoundFits(payload);
    forall i | 0 <= i < o'.start ensures out[i] == payload[i] {
      assert out[..o'.start][i] == payload[..o'.start][i];
    }
    SameAdditionalStart(payload, out);
    assert Ar(out) == Ar(payload);
    ScanReplaced(payload, out, AdditionalStart(payload).value, Ar(payload), o');
  }

  // ---- Adding an OPT ------------------------------------------------------

  // k additional records end exactly where the packet ends.
  ghost predicate EndsAfter(buf: bytes, k: nat)
    requires |buf| >= 12
  {
    var start := AdditionalStart(buf);
    && start.Some? && Walk(buf, start.value, k).Some?
    && WalkEnd(start.value, Walk(buf, start.value, k).value) == |buf|
  }

  // The records present end exactly at the packet end, and are no more than announced.
  ghost predicate EndsExactly(buf: bytes)
  {
    |buf| >= 12 && exists k :: 0 <= k <= Ar(buf) && EndsAfter(buf, k)
  }

  lemma {:induction false} ScanNonePrefix(buf: bytes, pos: nat, k: nat, n: nat)
    requires ScanOpt(buf, pos, n).None? && k <= n
    ensures ScanOpt(buf, pos, k).None?
    decreases n
  {
    if k != 0 && RrAt(buf, pos).Some? {
      ScanNonePrefix(buf, RrAt(buf, pos).value.End(), k - 1, n - 1);
    }
  }

  // A scan that passes k records of a meets the OPT that stands behind them in b.
  lemma {:induction false} ScanAppended(a: bytes, b: bytes, pos: nat, k: nat, n: nat, o: EdnsOpt)
    requires Walk(a, pos, k).Some? && WalkEnd(pos, Walk(a, pos, k).value) == o.start <= |a| <= |b|
    requires forall i :: pos <= i < |a| ==> a[i] == b[i]
    requires ScanOpt(a, pos, k).None? && k < n && OptHere(b, o.start, o)
    ensures ScanOpt(b, pos, n) == Some(o)
    decreases k
  {
    if k != 0 {
      var r := RrAt(a, pos).value;
      SameRecord(a, b, pos);
      var rest := Walk(a, r.End(), k - 1).value;
      assert WalkEnd(pos, [r] + rest) == WalkEnd(r.End(), rest);
      ScanAppended(a, b, r.End(), k - 1, n - 1, o);
    }
  }

  // A scan of b that stops within a has walked so far in a, and met no OPT there.
  lemma {:induction false} ScanReached(a: bytes, b: bytes, pos: nat, n: nat) returns (k: nat)
    requires pos <= |a| <= |b| && (forall i :: pos <= i < |a| ==> a[i] == b[i])
    requires ScanOpt(b, pos, n).Some? && ScanOpt(b, pos, n).value.start <= |a|
    ensures k < n && Walk(a, pos, k).Some? && WalkEnd(pos, Walk(a, pos, k).value) == ScanOpt(b, pos, n).value.start
    ensures ScanOpt(a, pos, k).None?
    decreases n
  {
    var r := RrAt(b, pos).value;
    if Type(b, r) == TYPE_OPT {
      k := 0;
    } else {
      ScanFits(b, r.End(), n - 1);
      SameRecord(b, a, pos);
      var k' := ScanReached(a, b, r.End(), n - 1);
      k := k' + 1;
      var rest := Walk(a, r.End(), k').value;
      assert WalkEnd(pos, [r] + rest) == WalkEnd(r.End(), rest);
    }
  }

  // The appended OPT.
  function Added(payload: bytes, s: Subnet): EdnsOpt
  {
    EdnsOpt(|payload|, |payload| + 22, 4096, 0, 0, 0, EncodeOptions([Ecs(s)]))
  }

  lemma {:induction false} AppendedParts(payload: bytes, s: Subnet)
    requires FindOpt(payload).None?
    ensures var out := SetEcs(payload, Some(s));
            && |out| == |payload| + 22
            && (forall i :: 0 <= i < |payload| && i != 10 && i != 11 ==> out[i] == payload[i])
            && (|payload| >= 12 ==> Ar(out) == (Ar(payload) + 1) % 0x1_0000
                                    && out[|payload|..] == OptBytes(Synthetic(payload), EncodeOptions([Ecs(s)])))
  {
    var enc, o := EncodeOptions([Ecs(s)]), Synthetic(payload);
    EncodedSize([], s);
    assert [] + [Ecs(s)] == [Ecs(s)];
    SpliceParts(payload, o, enc);
    var mid := Spliced(payload, o, enc);
    var out := BumpArcount(mid);
    forall i | 0 <= i < |payload| ensures mid[i] == payload[i] {
      assert mid[..|payload|][i] == payload[..|payload|][i];
    }
    if |payload| >= 12 {
      assert out[|payload|..] == mid[|payload|..] == mid[|payload|..|payload| + 22];
    }
  }

  lemma AddedReadBack(payload: bytes, out: bytes, s: Subnet)
    requires |out| == |payload| + 22
    requires out[|payload|..] == OptBytes(Synthetic(payload), EncodeOptions([Ecs(s)]))
    ensures OptHere(out, |payload|, Added(payload, s))
  {
    var enc, o := EncodeOptions([Ecs(s)]), Synthetic(payload);
    EncodedSize([], s);
    assert [] + [Ecs(s)] == [Ecs(s)];
    assert out[|payload|..|payload| + 22] == out[|payload|..];
    OptReadBack(out, o, enc);
    assert enc[..11] == enc;
  }

  lemma AppendedOptHere(payload: bytes, s: Subnet)
    requires FindOpt(payload).None? && |payload| >= 12
    ensures OptHere(SetEcs(payload, Some(s)), |payload|, Added(payload, s))
  {
    AppendedParts(payload, s);
    AddedReadBack(payload, SetEcs(payload, Some(s)), s);
  }

  /** Adding an OPT to a packet where none was found: every octet but ARCOUNT is kept,
      ARCOUNT goes up by one modulo 2^16, and scanning the output finds the new OPT
      exactly when the packet ends at a record boundary within its announced
      additional records and ARCOUNT does not wrap. */
  lemma EcsAddsNew(payload: bytes, s: Subnet)
    requires FindOpt(payload).None?
    ensures var out := SetEcs(payload, Some(s));
            && |out| == |payload| + 22
            && (forall i :: 0 <= i < |payload| && i != 10 && i != 11 ==> out[i] == payload[i])
            && (|payload| >= 12 ==> Ar(out) == (Ar(payload) + 1) % 0x1_0000)
            && (FindOpt(out) == Some(Added(payload, s)) <==> EndsExactly(payload) && Ar(payload) < 0xFFFF)
    ensures ParseOptions(Added(payload, s).options) == [Ecs(s)]
  {
    var out := SetEcs(payload, Some(s));
    AppendedParts(payload, s);
    ParseEncoded([Ecs(s)]);
    if EndsExactly(payload) && Ar(payload) < 0xFFFF {
      AddedIsFound(payload, s);
    }
    if FindOpt(out) == Some(Added(payload, s)) {
      FoundMeansExact(payload, s);
    }
  }

  lemma {:induction false} AddedIsFound(payload: bytes, s: Subnet)
    requires FindOpt(payload).None? && EndsExactly(payload) && Ar(payload) < 0xFFFF
    ensures FindOpt(SetEcs(payload, Some(s))) == Some(Added(payload, s))
  {
    var out := SetEcs(payload, Some(s));
    AppendedParts(payload, s);
    AppendedOptHere(payload, s);
    var k :| 0 <= k <= Ar(payload) && EndsAfter(payload, k);
    AppendedFound(payload, out, k, Added(payload, s));
  }

  // The packets agree on all octets of a except its ARCOUNT.
  ghost predicate Extends(a: bytes, b: bytes)
  {
    12 <= |a| <= |b| && forall i :: 0 <= i < |a| && i != 10 && i != 11 ==> a[i] == b[i]
  }

  lemma AppendedFound(a: bytes, b: bytes, k: nat, o: EdnsOpt)
    requires Extends(a, b) && FindOpt(a).None? && k <= Ar(a) < Ar(b) && EndsAfter(a, k) && OptHere(b, |a|, o)
    ensures FindOpt(b) == Some(o)
  {
    var start := AdditionalStart(a).value;
    StartAfterHeader(a);
    WalkEndAdvances(a, start, k);
    SameAdditionalStart(a, b);
    ScanNonePrefix(a, start, k, Ar(a));
    ScanAppended(a, b, start, k, Ar(b), o);
  }

  lemma ReachedExactly(a: bytes, b: bytes) returns (k: nat)
    requires Extends(a, b) && FindOpt(b).Some? && FindOpt(b).value.start == |a|
    ensures k < Ar(b) && EndsAfter(a, k)
  {
    FoundFits(b);
    var start := AdditionalStart(b).value;
    StartAfterHeader(b);
    SameAdditionalStart(b, a);
    k := ScanReached(a, b, start, Ar(b));
  }

  lemma StartAfterHeader(buf: bytes)
    requires |buf| >= 12 && AdditionalStart(buf).Some?
    ensures AdditionalStart(buf).value >= 12
  {
    SkipQuestionsAdvances(buf, 12, Qd(buf));
    WalkEndAdvances(buf, SkipQuestions(buf, 12, Qd(buf)).value, An(buf) + Ns(buf));
  }

  lemma FoundMeansExact(payload: bytes, s: Subnet)
    requires FindOpt(payload).None? && FindOpt(SetEcs(payload, Some(s))).Some?
    requires FindOpt(SetEcs(payload, Some(s))).value.start == |payload|
    ensures EndsExactly(payload) && Ar(payload) < 0xFFFF
  {
    AppendedParts(payload, s);
    ExactIfFound(payload, SetEcs(payload, Some(s)));
  }

  lemma ExactIfFound(a: bytes, b: bytes)
    requires |a| <= |b| && (forall i :: 0 <= i < |a| && i != 10 && i != 11 ==> a[i] == b[i])
    requires 12 <= |a| ==> Ar(b) == (Ar(a) + 1) % 0x1_0000
    requires FindOpt(b).Some? && FindOpt(b).value.start == |a|
    ensures EndsExactly(a) && Ar(a) < 0xFFFF
  {
    FoundFits(b);
    var k := ReachedExactly(a, b);
  }
}
