// Setting the client subnet twice: exactly when the second write undoes the first.

module LastWrite {
  import opened Bytes
  import opened Keys
  import opened Names
  import opened Message
  import opened Edns
  import opened ClientSubnet
  import opened Uncovered

  // ---- With an OPT in the packet ------------------------------------------

  lemma SameKept(options: bytes, s: Subnet, t: Subnet)
    requires KeptSize(options) + 11 < 0x1_0000
    ensures NewOptions(EncodeOptions(NewOptions(options, s)), t) == NewOptions(options, t)
  {
    ParseEncoded(NewOptions(options, s));
    WithoutAgain(ParseOptions(options), Ecs(s));
  }

  lemma LastWriteWinsExisting(payload: bytes, s: Subnet, t: Subnet)
    requires FindOpt(payload).Some? && KeptSize(FindOpt(payload).value.options) + 11 < 0x1_0000
    ensures SetEcs(SetEcs(payload, Some(s)), Some(t)) == SetEcs(payload, Some(t))
  {
    var o, out := FindOpt(payload).value, SetEcs(payload, Some(s));
    EcsRewritesExisting(payload, s);
    SameKept(o.options, s, t);
    FoundFits(payload);
    FoundFits(out);
    SplicesAgree(payload, out, o, FindOpt(out).value, EncodeOptions(NewOptions(o.options, t)));
  }

  lemma SplicesAgree(a: bytes, b: bytes, o: EdnsOpt, p: EdnsOpt, enc: bytes)
    requires Fits(a, o) && Fits(b, p) && o.start == p.start && a[..o.start] == b[..p.start] && a[o.end..] == b[p.end..]
    requires o.size == p.size && o.rcode == p.rcode && o.version == p.version && o.flags == p.flags
    ensures Spliced(a, o, enc) == Spliced(b, p, enc)
  {
    assert OptHeader(o, |enc| % 0x1_0000) == OptHeader(p, |enc| % 0x1_0000);
  }

  lemma RewrittenSize(payload: bytes, s: Subnet)
    requires FindOpt(payload).Some?
    ensures var o := FindOpt(payload).value;
            |SetEcs(payload, Some(s))| == |payload| - (o.end - o.start) + 11 + KeptSize(o.options) + 11
  {
    FoundFits(payload);
    var o := FindOpt(payload).value;
    EncodedSize(Without(ParseOptions(o.options), CODE_ECS), s);
    SpliceParts(payload, o, EncodeOptions(NewOptions(o.options, s)));
  }

  // Options cut by the 16-bit length leave octets behind, which a second write keeps.
  lemma TruncatedGrows(payload: bytes, s: Subnet, t: Subnet)
    requires FindOpt(payload).Some? && KeptSize(FindOpt(payload).value.options) + 11 >= 0x1_0000
    ensures |SetEcs(SetEcs(payload, Some(s)), Some(t))| > |SetEcs(payload, Some(t))|
  {
    var o, out := FindOpt(payload).value, SetEcs(payload, Some(s));
    RewrittenFound(payload, s);
    RewrittenSize(payload, s);
    RewrittenSize(payload, t);
    RewrittenSize(out, t);
    OptionsShort(payload);
    KeptNoLonger(o.options);
    EncodedSize(Without(ParseOptions(o.options), CODE_ECS), s);
    CutShort(o, EncodeOptions(NewOptions(o.options, s)));
  }

  lemma CutShort(o: EdnsOpt, enc: bytes)
    requires 0x1_0000 <= |enc| < 0x1_0000 + 11
    ensures WithOptions(o, enc).end - WithOptions(o, enc).start < 11 + 11
  {}

  // ---- Without one --------------------------------------------------------

  // The record written for o and a subnet, up to the client-subnet option.
  function Front(o: EdnsOpt, xs: seq<EdnsOption>): bytes
    requires AllSized(xs) && o.size < 0x1_0000 && o.flags < 0x1_0000
  {
    OptHeader(o, (|EncodeOptions(xs)| + 11) % 0x1_0000) + EncodeOptions(xs)
  }

  lemma RecordSpelled(o: EdnsOpt, xs: seq<EdnsOption>, s: Subnet)
    requires AllSized(xs) && o.size < 0x1_0000 && o.flags < 0x1_0000
    ensures var enc := EncodeOptions(xs + [Ecs(s)]);
            |enc| == |Front(o, xs)| && OptBytes(o, enc) == Front(o, xs) + EcsOctets(s)
  {
    EncodeAppend(xs, Ecs(s));
    EncodedEcs(s);
    var e := EncodeOptions(xs);
    var h := OptHeader(o, (|e| + 11) % 0x1_0000);
    assert h + (e + EcsOctets(s)) == (h + e) + EcsOctets(s);
  }

  // a ends in the option for s, and changing that to the one for t gives b.
  ghost predicate Twins(a: bytes, b: bytes, s: Subnet, t: Subnet)
  {
    && |a| == |b| >= 11 && (forall i :: 0 <= i < |a| - 3 ==> a[i] == b[i])
    && a[|a| - 10..] == EcsOctets(s)[1..] && b[|b| - 10..] == EcsOctets(t)[1..]
  }

  lemma {:induction false} LoneRecordSpelled(o: EdnsOpt, s: Subnet)
    requires o.size < 0x1_0000 && o.flags < 0x1_0000
    ensures |Front(o, [])| == 11 && OptBytes(o, EncodeOptions([Ecs(s)])) == Front(o, []) + EcsOctets(s)
  {
    assert [] + [Ecs(s)] == [Ecs(s)];
    RecordSpelled(o, [], s);
  }

  lemma {:induction false} AppendedSpelled(payload: bytes, s: Subnet, p: bytes)
    requires FindOpt(payload).None? && p == payload + Front(Synthetic(payload), [])
    ensures |p| == |payload| + 11 && SetEcs(payload, Some(s)) == BumpArcount(p + EcsOctets(s))
  {
    var o, enc := Synthetic(payload), EncodeOptions([Ecs(s)]);
    LoneRecordSpelled(o, s);
    SplicedAtEnd(payload, o, enc, Front(o, []) + EcsOctets(s));
    assert payload + (Front(o, []) + EcsOctets(s)) == p + EcsOctets(s);
  }

  // The packets written for s and for t.
  lemma {:induction false} PacketTwins(payload: bytes, s: Subnet, t: Subnet)
    requires FindOpt(payload).None?
    ensures var a, b := SetEcs(payload, Some(s)), SetEcs(payload, Some(t));
            |a| == |payload| + 22 && Twins(a, b, s, t)
  {
    var p := payload + Front(Synthetic(payload), []);
    AppendedSpelled(payload, s, p);
    AppendedSpelled(payload, t, p);
    BumpedTwins(p, s, t);
  }

  lemma BumpedTwins(p: bytes, s: Subnet, t: Subnet)
    requires |p| >= 11
    ensures Twins(BumpArcount(p + EcsOctets(s)), BumpArcount(p + EcsOctets(t)), s, t)
  {
    var a, b := p + EcsOctets(s), p + EcsOctets(t);
    var x, y := BumpArcount(a), BumpArcount(b);
    assert Ar(a) == Ar(b);
    assert x[|x| - 10..] == a[|a| - 10..] == EcsOctets(s)[1..];
    assert y[|y| - 10..] == b[|b| - 10..] == EcsOctets(t)[1..];
  }

  lemma TwinTail(a: bytes, b: bytes, front: bytes, start: nat, s: Subnet, t: Subnet)
    requires Twins(a, b, s, t) && start + |front| + 11 == |a| && b[start..] == front + EcsOctets(t)
    ensures a[start..] == front + EcsOctets(s)
  {
    var r := front + EcsOctets(s);
    forall i | 0 <= i < |r| ensures a[start..][i] == r[i] {
      if i <= |front| {
        assert b[start..][i] == (front + EcsOctets(t))[i];
      } else {
        assert a[|a| - 10..][i - |front| - 1] == EcsOctets(s)[1..][i - |front| - 1];
      }
    }
  }

  lemma TwinsSame(a: bytes, b: bytes, s: Subnet)
    requires Twins(a, b, s, s)
    ensures a == b
  {
    assert b == b[..|b| - 10] + b[|b| - 10..] && a == a[..|a| - 10] + a[|a| - 10..];
    assert a[..|a| - 10] == b[..|b| - 10];
  }

  lemma OptionEnd(a: bytes, s: Subnet)
    requires |a| >= 10 && a[|a| - 10..] == EcsOctets(s)[1..]
    ensures a[|a| - 6] == 1 && a[|a| - 5] == 24 && a[|a| - 3..] == s
  {
    var e := a[|a| - 10..];
    assert a[|a| - 6] == e[4] && a[|a| - 5] == e[5];
    assert a[|a| - 3..] == e[7..] == s;
  }

  lemma SameEnd(a: bytes, b: bytes, end: nat)
    requires |a| == |b| && end + 3 <= |a| && a[end..] == b[end..]
    ensures a[|a| - 3..] == b[|b| - 3..]
  {
    var d := |a| - 3 - end;
    assert a[|a| - 3..] == a[end..][d..] && b[|b| - 3..] == b[end..][d..];
  }

  // A record for t put before octets that end in the option for s gives a packet that ends in
  // the option for t only if nothing is behind it, or s is t.
  lemma EndForced(out: bytes, want: bytes, end: nat, s: Subnet, t: Subnet)
    requires Twins(out, want, s, t) && 11 <= end <= |out|
    requires want[end - 11..end] == EcsOctets(t) && want[end..] == out[end..]
    ensures end == |out| || s == t
  {
    OptionEnd(out, s);
    OptionEnd(want, t);
    assert want[end - 4] == want[end - 11..end][7] == 0;
    if end + 3 <= |out| {
      SameEnd(want, out, end);
    }
  }

  lemma SplicedOnlyIf(out: bytes, want: bytes, front: bytes, start: nat, end: nat, s: Subnet, t: Subnet)
    requires Twins(out, want, s, t) && end == start + |front| + 11 <= |out|
    requires want == out[..start] + (front + EcsOctets(t)) + out[end..]
    ensures out[start..end] == front + EcsOctets(s) && (s == t || end == |out|)
  {
    assert want[start..end] == front + EcsOctets(t) && want[end..] == out[end..];
    SliceSlice(want, start, end, |front|, |front| + 11);
    assert want[end - 11..end] == EcsOctets(t);
    EndForced(out, want, end, s, t);
    if s == t {
      TwinsSame(out, want, s);
    } else {
      assert want[start..] == want[start..end] && out[start..] == out[start..end];
      TwinTail(out, want, front, start, s, t);
    }
  }

  lemma SplicedIf(out: bytes, want: bytes, front: bytes, start: nat, end: nat, s: Subnet, t: Subnet)
    requires Twins(out, want, s, t) && end == start + |front| + 11 <= |out|
    requires out[start..end] == front + EcsOctets(s) && (s == t || end == |out|)
    ensures want == out[..start] + (front + EcsOctets(t)) + out[end..]
  {
    if s == t {
      TwinsSame(out, want, s);
      assert out == out[..start] + out[start..end] + out[end..];
    } else {
      assert out[start..] == out[start..end];
      TwinTail(want, out, front, start, t, s);
      assert want == want[..start] + want[start..];
      assert out[..start] == want[..start] && out[end..] == [];
    }
  }

  // The record is what a write of s leaves: a root name, and options with s last that
  // encode back to themselves.
  ghost predicate Written(o: EdnsOpt, s: Subnet)
  {
    o.end == o.start + 11 + |o.options| && o.options == EncodeOptions(NewOptions(o.options, s))
  }

  // Without an OPT in the packet: behind some of the records announced, the packet and the
  // octets appended for s hold an OPT as a write of s leaves it, and nothing is behind it
  // unless both subnets are the same.
  ghost predicate FoundAgain(payload: bytes, s: Subnet, t: Subnet)
  {
    exists o :: Uncovers(payload, s, o) && Written(o, s) && (s == t || o.end == |payload| + 22)
  }

  // Octets that spell a record are that record.
  lemma SpelledIsWritten(buf: bytes, o: EdnsOpt, enc: bytes)
    requires OptHere(buf, o.start, o) && Fits(buf, o) && o.end == o.start + 11 + |enc|
    requires buf[o.start..o.end] == OptBytes(o, enc)
    ensures o.options == enc
  {
    OptReadBack(buf, o, enc);
    assert o == WithOptions(o, enc);
    assert enc[..|enc|] == enc;
  }

  lemma RootName(buf: bytes, pos: nat)
    requires SkipName(buf, pos) == Some(pos + 1)
    ensures buf[pos] == 0
  {
    if buf[pos] != 0 && buf[pos] < 192 {
      SkipNameAdvances(buf, pos + 1 + buf[pos]);
    }
  }

  // Eleven octets are spelled by the fields they hold.
  lemma HeaderSpelled(buf: bytes, p: nat, size: nat, rcode: byte, version: byte, flags: nat, n: nat)
    requires p + 11 <= |buf| && buf[p] == 0 && U16At(buf, p + 1) == TYPE_OPT && U16At(buf, p + 3) == size
    requires buf[p + 5] == rcode && buf[p + 6] == version && U16At(buf, p + 7) == flags && U16At(buf, p + 9) == n
    ensures buf[p..p + 11] == [0] + Be16(TYPE_OPT) + Be16(size) + [rcode, version] + Be16(flags) + Be16(n)
  {
    Be16OfU16(buf, p + 1);
    Be16OfU16(buf, p + 3);
    Be16OfU16(buf, p + 7);
    Be16OfU16(buf, p + 9);
    assert buf[p..p + 11] == [buf[p]] + buf[p + 1..p + 3] + buf[p + 3..p + 5] + [buf[p + 5], buf[p + 6]]
                             + buf[p + 7..p + 9] + buf[p + 9..p + 11];
  }

  lemma Assembled(buf: bytes, a: nat, b: nat, c: nat)
    requires a <= b <= c <= |buf|
    ensures buf[a..c] == buf[a..b] + buf[b..c]
  {}

  // Where the fields of a record with a root name lie.
  ghost predicate FieldsAt(buf: bytes, o: EdnsOpt)
  {
    var p, n := o.start, |o.options|;
    && p + 11 <= |buf| && buf[p] == 0 && U16At(buf, p + 1) == TYPE_OPT && U16At(buf, p + 3) == o.size
    && buf[p + 5] == o.rcode && buf[p + 6] == o.version && U16At(buf, p + 7) == o.flags && U16At(buf, p + 9) == n
    && o.end == p + 11 + n <= |buf| && buf[p + 11..o.end] == o.options
  }

  lemma {:induction false} WrittenFields(buf: bytes, o: EdnsOpt)
    requires OptHere(buf, o.start, o) && o.end == o.start + 11 + |o.options|
    ensures FieldsAt(buf, o)
  {
    RootName(buf, o.start);
  }

  lemma {:induction false} HeaderFieldsSpell(buf: bytes, o: EdnsOpt, n: nat)
    requires FieldsAt(buf, o) && o.size < 0x1_0000 && o.flags < 0x1_0000 && n == |o.options| < 0x1_0000
    ensures buf[o.start..o.start + 11] == OptHeader(o, n)
  {
    HeaderSpelled(buf, o.start, o.size, o.rcode, o.version, o.flags, n);
  }

  lemma {:induction false} ShortOptBytes(o: EdnsOpt, options: bytes)
    requires o.size < 0x1_0000 && o.flags < 0x1_0000 && |options| < 0x1_0000
    ensures OptBytes(o, options) == OptHeader(o, |options|) + options
  {}

  // A record with a root name is spelled by its fields.
  lemma {:induction false} FieldsSpell(buf: bytes, o: EdnsOpt)
    requires FieldsAt(buf, o) && Fits(buf, o) && |o.options| < 0x1_0000
    ensures buf[o.start..o.end] == OptBytes(o, o.options)
  {
    HeaderFieldsSpell(buf, o, |o.options|);
    Assembled(buf, o.start, o.start + 11, o.end);
    ShortOptBytes(o, o.options);
  }

  lemma {:induction false} WinsOnlyIfFound(out: bytes, want: bytes, o: EdnsOpt, s: Subnet, t: Subnet)
    requires OptHere(out, o.start, o) && Fits(out, o) && Twins(out, want, s, t)
    requires Spliced(out, o, EncodeOptions(NewOptions(o.options, t))) == want
    ensures Written(o, s) && (s == t || o.end == |out|)
  {
    var xs := Without(ParseOptions(o.options), CODE_ECS);
    var front, es := Front(o, xs), EncodeOptions(xs + [Ecs(s)]);
    RecordSpelled(o, xs, s);
    RecordSpelled(o, xs, t);
    SplicedOnlyIf(out, want, front, o.start, o.end, s, t);
    SpelledIsWritten(out, o, es);
  }

  lemma WinsIfFound(out: bytes, want: bytes, o: EdnsOpt, s: Subnet, t: Subnet)
    requires OptHere(out, o.start, o) && Fits(out, o) && |o.options| < 0x1_0000 && Twins(out, want, s, t)
    requires Written(o, s) && (s == t || o.end == |out|)
    ensures Spliced(out, o, EncodeOptions(NewOptions(o.options, t))) == want
  {
    var xs := Without(ParseOptions(o.options), CODE_ECS);
    RecordSpelled(o, xs, s);
    RecordSpelled(o, xs, t);
    WrittenFields(out, o);
    FieldsSpell(out, o);
    SplicedIf(out, want, Front(o, xs), o.start, o.end, s, t);
  }

  // Where a scan finds no OPT after the first write, the second one appends another.
  lemma SecondOptAppended(payload: bytes, s: Subnet, t: Subnet)
    requires FindOpt(payload).None? && FindOpt(SetEcs(payload, Some(s))).None?
    ensures var once, twice := SetEcs(payload, Some(s)), SetEcs(SetEcs(payload, Some(s)), Some(t));
            && |once| == |SetEcs(payload, Some(t))| == |payload| + 22 && |twice| == |once| + 22
            && (forall i :: 0 <= i < |once| && i != 10 && i != 11 ==> twice[i] == once[i])
            && twice[|once|..] == OptBytes(Synthetic(once), EncodeOptions([Ecs(t)]))
  {
    AppendedParts(payload, s);
    AppendedParts(payload, t);
    AppendedParts(SetEcs(payload, Some(s)), t);
  }

  // The same, said of what a scan finds after the first write.
  lemma {:induction false} FoundAgainScan(payload: bytes, s: Subnet, t: Subnet, out: bytes)
    requires FindOpt(payload).None? && out == SetEcs(payload, Some(s))
    ensures FoundAgain(payload, s, t) <==>
            FindOpt(out).Some? && Written(FindOpt(out).value, s) && (s == t || FindOpt(out).value.end == |payload| + 22)
  {
    if FindOpt(out).Some? {
      FoundExactly(payload, s, FindOpt(out).value, out);
    }
    if o :| Uncovers(payload, s, o) && Written(o, s) && (s == t || o.end == |payload| + 22) {
      FoundExactly(payload, s, o, out);
    }
  }

  lemma WinsExactlyUnfound(payload: bytes, s: Subnet, t: Subnet)
    requires FindOpt(payload).None?
    ensures SetEcs(SetEcs(payload, Some(s)), Some(t)) == SetEcs(payload, Some(t)) <==> FoundAgain(payload, s, t)
  {
    var out, want := SetEcs(payload, Some(s)), SetEcs(payload, Some(t));
    FoundAgainScan(payload, s, t, out);
    if FindOpt(out).None? {
      SecondOptAppended(payload, s, t);
    } else {
      var o := FindOpt(out).value;
      PacketTwins(payload, s, t);
      FoundHere(out, o);
      assert SetEcs(out, Some(t)) == Spliced(out, o, EncodeOptions(NewOptions(o.options, t)));
      if SetEcs(out, Some(t)) == want {
        WinsOnlyIfFound(out, want, o, s, t);
      }
      if FoundAgain(payload, s, t) {
        WinsIfFound(out, want, o, s, t);
      }
    }
  }

  // ---- The theorem --------------------------------------------------------

  /** For every packet: setting one subnet and then another is setting the other, octet for
      octet, exactly when the options of an OPT that was there fit with the new one, or there
      was none and the one written first is found again. */
  lemma LastWriteWins(payload: bytes, s: Subnet, t: Subnet)
    ensures SetEcs(SetEcs(payload, Some(s)), Some(t)) == SetEcs(payload, Some(t)) <==>
            if FindOpt(payload).Some? then KeptSize(FindOpt(payload).value.options) + 11 < 0x1_0000
            else FoundAgain(payload, s, t)
  {
    if FindOpt(payload).None? {
      WinsExactlyUnfound(payload, s, t);
    } else if KeptSize(FindOpt(payload).value.options) + 11 < 0x1_0000 {
      LastWriteWinsExisting(payload, s, t);
    } else {
      TruncatedGrows(payload, s, t);
    }
  }

  lemma AddedIsWritten(payload: bytes, s: Subnet)
    ensures Written(Added(payload, s), s) && Added(payload, s).end == |payload| + 22
  {
    EncodedEcs(s);
    ParseEncoded([Ecs(s)]);
    WithoutAgain([], Ecs(s));
    assert [] + [Ecs(s)] == [Ecs(s)];
  }

  lemma NoneAnnounced(buf: bytes)
    requires |buf| >= 12 && Ar(buf) == 0
    ensures FindOpt(buf).None?
  {}

  /** In a packet that ends at a record boundary the first write is found again, whatever the
      subnets, exactly when ARCOUNT did not wrap. */
  lemma {:induction false} WholePacketFoundAgain(payload: bytes, s: Subnet, t: Subnet)
    requires FindOpt(payload).None? && EndsExactly(payload)
    ensures FoundAgain(payload, s, t) <==> Ar(payload) < 0xFFFF
  {
    AppendedParts(payload, s);
    AddedIsWritten(payload, s);
    FoundAgainScan(payload, s, t, SetEcs(payload, Some(s)));
    if Ar(payload) < 0xFFFF {
      AddedIsFound(payload, s);
    } else {
      NoneAnnounced(SetEcs(payload, Some(s)));
    }
  }
}
