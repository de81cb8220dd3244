// The octets of a query that its cache key depends on.

module KeyBits {
  import opened Bytes
  import opened Keys
  import opened Names
  import opened Message
  import opened Edns
  import opened Ageing
  import opened Query

  // ---- The flags ----------------------------------------------------------

  // The packets agree behind the flags.
  ghost predicate SameBody(p: bytes, q: bytes)
  {
    |p| == |q| && forall i :: 4 <= i < |p| ==> p[i] == q[i]
  }

  // The OPT record is found without looking at the id or the flags.
  lemma {:induction false} OptIgnoresFlags(p: bytes, q: bytes)
    requires SameBody(p, q)
    ensures FindOpt(p) == FindOpt(q)
  {
    if |p| >= 12 {
      assert Qd(p) == Qd(q) && An(p) == An(q) && Ns(p) == Ns(q) && Ar(p) == Ar(q);
      AdditionalIgnoresFlags(p, q);
      if AdditionalStart(p).Some? {
        ScanSameSuffix(p, q, AdditionalStart(p).value, Ar(p));
      }
    }
  }

  lemma {:induction false} AdditionalIgnoresFlags(p: bytes, q: bytes)
    requires |p| >= 12 && SameBody(p, q)
    ensures AdditionalStart(p) == AdditionalStart(q)
    ensures AdditionalStart(p).Some? ==> AdditionalStart(p).value >= 12
  {
    var qd, n := Qd(p), An(p) + Ns(p);
    assert Qd(q) == qd && An(q) + Ns(q) == n;
    QuestionsSameSuffix(p, q, 12, qd);
    if SkipQuestions(p, 12, qd).Some? {
      var start := SkipQuestions(p, 12, qd).value;
      SkipQuestionsAdvances(p, 12, qd);
      WalkSameSuffix(p, q, start, n);
      if Walk(p, start, n).Some? {
        WalkEndAdvances(p, start, n);
      }
    }
  }

  lemma {:induction false} SameKeyAt(p: bytes, q: bytes, x: Option<Parsed>, y: Option<Parsed>, d: bool,
                                     subnet: Option<Subnet>)
    requires |p| >= 12 && SameBody(p, q) && KeyAt(p, x, d, subnet).Some?
    requires x.value.end >= 12 && (y.Some? ==> y.value.end == x.value.end)
    ensures KeyAt(q, y, d, subnet) == KeyAt(p, x, d, subnet) <==>
            y == x && q[2] % 2 == p[2] % 2 && q[3] / 16 % 2 == p[3] / 16 % 2
  {
    var e := x.value.end;
    assert U16At(p, e) == U16At(q, e) && U16At(p, e + 2) == U16At(q, e + 2);
  }

  /** For every query with a key: under another id and other flags it keeps the key exactly when
      its name still reads the same, and RD, the lowest bit of octet 2, and CD, the bit of value
      16 of octet 3, are as they were. */
  lemma {:induction false} KeyReadsTwoBits(fold: Fold, p: bytes, q: bytes, subnet: Option<Subnet>)
    requires KeyFromQuery(fold, p, subnet).Some? && SameBody(p, q)
    ensures KeyFromQuery(fold, q, subnet) == KeyFromQuery(fold, p, subnet) <==>
            && ParseDomain(fold, q, 12) == ParseDomain(fold, p, 12)
            && q[2] % 2 == p[2] % 2 && q[3] / 16 % 2 == p[3] / 16 % 2
  {
    OptIgnoresFlags(p, q);
    KeyHasQuestion(fold, p, subnet);
    SkipNameAdvances(p, 12);
    assert p[12..] == q[12..];
    SkipNameShift(p, 12, q, 12);
    SameKeyAt(p, q, ParseDomain(fold, p, 12), ParseDomain(fold, q, 12), Do(p), subnet);
  }

  // No octet of the hole is read for the name at offset 12, pointers followed.
  predicate NameAvoids(p: bytes, hole: set<nat>)
  {
    ReadsFixed(p, 12, MAX_HOPS, |p|, hole)
  }

  lemma UncompressedAvoids(fold: Fold, p: bytes, subnet: Option<Subnet>)
    requires KeyFromQuery(fold, p, subnet).Some? && Uncompressed(p, 12)
    ensures NameAvoids(p, {2}) && NameAvoids(p, {3})
  {
    KeyHasQuestion(fold, p, subnet);
    UncompressedFixed(p, 12, MAX_HOPS, |p|, {2});
    UncompressedFixed(p, 12, MAX_HOPS, |p|, {3});
  }

  /** Replacing octet 2 of a query, if its name is uncompressed or not read from that octet,
      keeps its key exactly when the lowest bit stays. */
  lemma RdBit(fold: Fold, p: bytes, x: byte, subnet: Option<Subnet>)
    requires KeyFromQuery(fold, p, subnet).Some? && (Uncompressed(p, 12) || NameAvoids(p, {2}))
    ensures KeyFromQuery(fold, p[2 := x], subnet) == KeyFromQuery(fold, p, subnet) <==> x % 2 == p[2] % 2
  {
    if Uncompressed(p, 12) {
      UncompressedAvoids(fold, p, subnet);
    }
    SameNameParses(fold, p, p[2 := x], |p|, {2});
    KeyReadsTwoBits(fold, p, p[2 := x], subnet);
  }

  /** Replacing octet 3 keeps it exactly when the bit of value 16 stays. */
  lemma CdBit(fold: Fold, p: bytes, x: byte, subnet: Option<Subnet>)
    requires KeyFromQuery(fold, p, subnet).Some? && (Uncompressed(p, 12) || NameAvoids(p, {3}))
    ensures KeyFromQuery(fold, p[3 := x], subnet) == KeyFromQuery(fold, p, subnet) <==> x / 16 % 2 == p[3] / 16 % 2
  {
    if Uncompressed(p, 12) {
      UncompressedAvoids(fold, p, subnet);
    }
    SameNameParses(fold, p, p[3 := x], |p|, {3});
    KeyReadsTwoBits(fold, p, p[3 := x], subnet);
  }

  /** A name that points into the flags is read from them: with a zero in octet 3 the query asks
      for the root and has a key, and with the bit of value 64 set there it has none, though
      neither RD nor CD changed. */
  lemma {:induction false} FlagsReadAsName(fold: Fold, p: bytes, subnet: Option<Subnet>)
    requires |p| >= 18 && p[12] == 192 && p[13] == 3 && p[3] == 0
    ensures KeyFromQuery(fold, p, subnet).Some? && KeyFromQuery(fold, p[3 := 64], subnet).None?
  {
    var q := p[3 := 64];
    assert PointerTarget(p, 12) == 3 && PointerTarget(q, 12) == 3;
    assert Labels(fold, p, 3, MAX_HOPS - 1) == Some([]) && Labels(fold, q, 3, MAX_HOPS - 1).None?;
    assert Labels(fold, p, 12, MAX_HOPS) == Some([]) && Labels(fold, q, 12, MAX_HOPS).None?;
  }

  // ---- The DO bit ---------------------------------------------------------

  // Record k of the additional section is its first OPT.
  ghost predicate FirstOpt(p: bytes, k: int, r: Rr)
  {
    && |p| >= 12 && AdditionalStart(p).Some? && 0 <= k < Ar(p)
    && OptAfter(p, AdditionalStart(p).value, k, r)
  }

  // Behind k readable records of other types, r is of type 41.
  ghost predicate OptAfter(p: bytes, pos: nat, k: nat, r: Rr)
    decreases k
  {
    var first := RrAt(p, pos);
    && first.Some?
    && if k == 0 then first == Some(r) && U16At(p, r.body) == 41
       else U16At(p, first.value.body) != 41 && OptAfter(p, first.value.End(), k - 1, r)
  }

  lemma {:induction false} ScanMeaning(p: bytes, pos: nat, n: nat, o: EdnsOpt) returns (k: nat, r: Rr)
    requires ScanOpt(p, pos, n) == Some(o)
    ensures k < n && OptAfter(p, pos, k, r) && In(p, r) && o == OptOf(p, r)
    decreases n
  {
    r := RrAt(p, pos).value;
    k := 0;
    if Type(p, r) != TYPE_OPT {
      var end := r.End();
      k, r := ScanMeaning(p, end, n - 1, o);
      k := k + 1;
    }
  }

  lemma {:induction false} ScanFinds(p: bytes, pos: nat, n: nat, k: nat, r: Rr)
    requires k < n && OptAfter(p, pos, k, r)
    ensures In(p, r) && ScanOpt(p, pos, n) == Some(OptOf(p, r))
    decreases n
  {
    if k > 0 {
      ScanFinds(p, RrAt(p, pos).value.End(), n - 1, k - 1, r);
    }
  }

  /** DO is the highest bit of the seventh octet behind the name of the first OPT record of the
      additional section, and clear without one. */
  lemma {:induction false} DoBit(p: bytes)
    ensures Do(p) <==> exists k, r :: FirstOpt(p, k, r) && In(p, r) && p[r.body + 6] >= 128
  {
    if FindOpt(p).Some? {
      var start := AdditionalStart(p).value;
      var k, r := ScanMeaning(p, start, Ar(p), FindOpt(p).value);
      assert FirstOpt(p, k, r);
      forall k', r' | FirstOpt(p, k', r') ensures In(p, r') && FindOpt(p) == Some(OptOf(p, r')) {
        ScanFinds(p, start, Ar(p), k', r');
      }
    } else {
      forall k, r | FirstOpt(p, k, r) ensures false {
        ScanFinds(p, AdditionalStart(p).value, Ar(p), k, r);
      }
    }
  }
}
