// Cache keys of queries and the lookup-query builder.

module Query {
  import opened Bytes
  import opened Keys
  import opened Text
  import opened Names
  import opened Message
  import opened Edns
  import opened ClientSubnet
  import opened Uncovered

  // ---- The cache key ------------------------------------------------------

  function Rd(p: bytes): nat requires |p| >= 12 { p[2] % 2 }
  function Cd(p: bytes): nat requires |p| >= 12 { p[3] / 16 % 2 }

  // The DO bit of the packet's OPT record.
  predicate Do(p: bytes)
  {
    FindOpt(p).Some? && FindOpt(p).value.flags >= 0x8000
  }

  function KeyFromQuery(fold: Fold, p: bytes, subnet: Option<Subnet>): Option<CacheKey>
  {
    if |p| < 12 then None else KeyAt(p, ParseDomain(fold, p, 12), Do(p), subnet)
  }

  // The key of a packet whose question name parsed to q.
  function KeyAt(p: bytes, q: Option<Parsed>, dnssecOk: bool, subnet: Option<Subnet>): Option<CacheKey>
    requires |p| >= 12
  {
    if q.None? || q.value.end + 4 > |p| then None
    else
      var e := q.value.end;
      Some(CacheKey(q.value.name, U16At(p, e), U16At(p, e + 2), Rd(p) + Cd(p) * 16, dnssecOk, subnet))
  }

  // ---- Injection does not change the key ----------------------------------

  const ARCOUNT: set<nat> := {10, 11}

  // What stands at offset 12, the question or else a first record, lies before an OPT that
  // is found further on.
  lemma QuestionBeforeOpt(p: bytes, o: EdnsOpt)
    requires FindOpt(p) == Some(o) && o.start > 12
    ensures SkipName(p, 12).Some? && SkipName(p, 12).value + 4 <= o.start
  {
    FoundFits(p);
    var start := AdditionalStart(p).value;
    if Qd(p) >= 1 {
      QuestionBeforeAdditional(p);
    } else if An(p) + Ns(p) > 0 {
      WalkIndex(p, 12, An(p) + Ns(p), 0);
      assert Walk(p, 12, An(p) + Ns(p)).value[0] == RrAt(p, 12).value;
    } else {
      assert start == 12;
      FirstNotOpt(p, Ar(p), o);
    }
  }

  lemma FirstNotOpt(p: bytes, n: nat, o: EdnsOpt)
    requires ScanOpt(p, 12, n) == Some(o) && o.start > 12
    ensures SkipName(p, 12).Some? && SkipName(p, 12).value + 4 <= o.start
  {
    var r := RrAt(p, 12).value;
    ScanFits(p, r.End(), n - 1);
  }

  // The first question lies before the additional section.
  lemma QuestionBeforeAdditional(p: bytes)
    requires |p| >= 12 && Qd(p) >= 1 && AdditionalStart(p).Some?
    ensures SkipName(p, 12).Some? && SkipName(p, 12).value + 4 <= AdditionalStart(p).value
  {
    var q := SkipQuestions(p, 12, Qd(p)).value;
    SkipQuestionsAdvances(p, SkipName(p, 12).value + 4, Qd(p) - 1);
    WalkEndAdvances(p, q, An(p) + Ns(p));
  }

  lemma SameNameParses(fold: Fold, a: bytes, b: bytes, hi: nat, hole: set<nat>)
    requires hi <= |a| && hi <= |b| && ReadsFixed(a, 12, MAX_HOPS, hi, hole)
    requires forall i :: 0 <= i < hi && Fixed(i, hi, hole) ==> a[i] == b[i]
    ensures ParseDomain(fold, b, 12) == ParseDomain(fold, a, 12) && SkipName(b, 12) == SkipName(a, 12)
    ensures SkipName(a, 12).Some?
    ensures ParseDomain(fold, a, 12).Some? ==> 12 <= ParseDomain(fold, a, 12).value.end == SkipName(a, 12).value
  {
    ReadsLocal(fold, a, b, 12, MAX_HOPS, hi, hole);
    ReadsEnd(a, b, 12, MAX_HOPS, hi, hole);
    SkipNameAdvances(a, 12);
  }

  // Packets that agree on the flags and on the question share a key.
  lemma SameQuestionSameKey(a: bytes, b: bytes, q: Option<Parsed>, dnssecOk: bool, subnet: Option<Subnet>)
    requires |a| >= 12 && |b| >= 12 && a[2] == b[2] && a[3] == b[3]
    requires q.Some? ==> 12 <= q.value.end && q.value.end + 4 <= |a| && q.value.end + 4 <= |b|
    requires q.Some? ==> forall i :: 12 <= i < q.value.end + 4 ==> a[i] == b[i]
    ensures KeyAt(b, q, dnssecOk, subnet) == KeyAt(a, q, dnssecOk, subnet)
  {}

  lemma KeySameName(fold: Fold, p: bytes, out: bytes, subnet: Option<Subnet>, hi: nat, hole: set<nat>)
    requires KeyFromQuery(fold, p, subnet).Some? && 12 <= hi <= |p| && hi <= |out| && ReadsFixed(p, 12, MAX_HOPS, hi, hole)
    requires forall i :: 0 <= i < hi && Fixed(i, hi, hole) ==> p[i] == out[i]
    requires SkipName(p, 12).Some? && SkipName(p, 12).value + 4 <= hi && hole <= ARCOUNT
    ensures KeyFromQuery(fold, out, subnet) == KeyAt(p, ParseDomain(fold, p, 12), Do(out), subnet)
  {
    SameNameParses(fold, p, out, hi, hole);
    SameQuestionSameKey(p, out, ParseDomain(fold, p, 12), Do(out), subnet);
  }

  // An OPT at offset 12 is read as the question: its type, and its size for a class.
  lemma KeyOfOpt(fold: Fold, p: bytes, o: EdnsOpt, subnet: Option<Subnet>)
    requires KeyFromQuery(fold, p, subnet).Some? && OptHere(p, 12, o)
    ensures var k := KeyFromQuery(fold, p, subnet).value;
            k == CacheKey(k.name, TYPE_OPT, o.size, Rd(p) + Cd(p) * 16, Do(p), subnet)
  {
    KeyHasQuestion(fold, p, subnet);
    SkipNameAdvances(p, 12);
  }

  lemma KeyOfRootOpt(fold: Fold, p: bytes, o: EdnsOpt, subnet: Option<Subnet>)
    requires OptHere(p, 12, o) && p[12] == 0
    ensures KeyFromQuery(fold, p, subnet) == Some(CacheKey([], TYPE_OPT, o.size, Rd(p) + Cd(p) * 16, Do(p), subnet))
  {
    assert ParseDomain(fold, p, 12) == Some(Parsed([], 13));
  }

  lemma KeyHasQuestion(fold: Fold, p: bytes, subnet: Option<Subnet>)
    requires KeyFromQuery(fold, p, subnet).Some?
    ensures |p| >= 12 && SkipName(p, 12).Some? && SkipName(p, 12).value + 4 <= |p|
  {
    ParsedNameEnd(fold, p, 12, MAX_HOPS);
  }

  lemma RewriteKeepsFront(p: bytes, s: Subnet, o: EdnsOpt, out: bytes)
    requires FindOpt(p) == Some(o) && out == SetEcs(p, Some(s))
    ensures Do(out) == Do(p) && 12 <= o.start <= |p| && o.start < |out| && forall i :: 0 <= i < o.start ==> p[i] == out[i]
  {
    RewrittenFound(p, s);
    FoundFits(p);
    RewrittenRoot(p, o, s);
    forall i | 0 <= i < o.start ensures p[i] == out[i] {
      assert out[..o.start][i] == p[..o.start][i];
    }
  }

  lemma KeyBeforeOpt(fold: Fold, p: bytes, s: Subnet, subnet: Option<Subnet>, o: EdnsOpt, out: bytes)
    requires KeyFromQuery(fold, p, subnet).Some? && o.start <= |p| && ReadsFixed(p, 12, MAX_HOPS, o.start, {})
    requires FindOpt(p) == Some(o) && out == SetEcs(p, Some(s)) && o.start > 12
    ensures KeyFromQuery(fold, out, subnet) == KeyFromQuery(fold, p, subnet)
  {
    RewriteKeepsFront(p, s, o, out);
    QuestionBeforeOpt(p, o);
    KeySameName(fold, p, out, subnet, o.start, {});
  }

  lemma KeyAtOpt(fold: Fold, p: bytes, s: Subnet, subnet: Option<Subnet>, o: EdnsOpt, out: bytes)
    requires KeyFromQuery(fold, p, subnet).Some?
    requires FindOpt(p) == Some(o) && out == SetEcs(p, Some(s)) && o.start == 12
    ensures KeyFromQuery(fold, out, subnet) == KeyFromQuery(fold, p, subnet) <==>
            KeyFromQuery(fold, p, subnet).value.name == []
  {
    RewriteKeepsFront(p, s, o, out);
    FoundHere(p, o);
    var o' := RewrittenOptHere(p, s, o, out);
    RewrittenRoot(p, o, s);
    OptKeysAgree(fold, p, out, o, o', subnet);
  }

  lemma {:induction false} OptKeysAgree(fold: Fold, p: bytes, out: bytes, o: EdnsOpt, o': EdnsOpt, subnet: Option<Subnet>)
    requires KeyFromQuery(fold, p, subnet).Some? && OptHere(p, 12, o)
    requires OptHere(out, 12, o') && out[12] == 0 && o'.size == o.size
    requires p[2] == out[2] && p[3] == out[3] && Do(p) == Do(out)
    ensures KeyFromQuery(fold, out, subnet) == KeyFromQuery(fold, p, subnet) <==>
            KeyFromQuery(fold, p, subnet).value.name == []
  {
    KeyOfOpt(fold, p, o, subnet);
    KeyOfRootOpt(fold, out, o', subnet);
  }

  lemma RewrittenOptHere(p: bytes, s: Subnet, o: EdnsOpt, out: bytes) returns (o': EdnsOpt)
    requires FindOpt(p) == Some(o) && out == SetEcs(p, Some(s))
    ensures OptHere(out, o.start, o') && o'.size == o.size
  {
    EcsRewritesExisting(p, s);
    o' := FindOpt(out).value;
    FoundHere(out, o');
  }

  lemma RewrittenRoot(p: bytes, o: EdnsOpt, s: Subnet)
    requires FindOpt(p) == Some(o)
    ensures |SetEcs(p, Some(s))| > o.start && SetEcs(p, Some(s))[o.start] == 0
  {
    FoundFits(p);
    var enc := EncodeOptions(NewOptions(o.options, s));
    SpliceParts(p, o, enc);
    var out, k := Spliced(p, o, enc), o.start + 11 + |enc|;
    assert out[o.start] == out[o.start..k][0] == OptBytes(o, enc)[0];
  }

  lemma KeyAfterAppend(fold: Fold, p: bytes, s: Subnet, subnet: Option<Subnet>, out: bytes)
    requires KeyFromQuery(fold, p, subnet).Some? && ReadsFixed(p, 12, MAX_HOPS, |p|, ARCOUNT)
    requires FindOpt(p).None? && out == SetEcs(p, Some(s))
    ensures KeyFromQuery(fold, out, subnet) == KeyFromQuery(fold, p, subnet) <==> !HidesDo(p)
  {
    AppendedParts(p, s);
    KeyHasQuestion(fold, p, subnet);
    KeySameName(fold, p, out, subnet, |p|, ARCOUNT);
    DoShownExactly(p, s, out);
  }

  // Injection keeps in place the octets before an OPT that is there, or else all but ARCOUNT.
  // Only such octets are read for the name, or the OPT itself is read as the question.
  predicate NameStays(p: bytes)
  {
    var o := FindOpt(p);
    if o.None? then ReadsFixed(p, 12, MAX_HOPS, |p|, ARCOUNT)
    else o.value.start <= 12 || (o.value.start <= |p| && ReadsFixed(p, 12, MAX_HOPS, o.value.start, {}))
  }

  lemma UncompressedStays(fold: Fold, p: bytes, subnet: Option<Subnet>)
    requires KeyFromQuery(fold, p, subnet).Some? && Uncompressed(p, 12)
    ensures NameStays(p)
  {
    KeyHasQuestion(fold, p, subnet);
    if FindOpt(p).None? {
      UncompressedFixed(p, 12, MAX_HOPS, |p|, ARCOUNT);
    } else if FindOpt(p).value.start > 12 {
      FoundFits(p);
      QuestionBeforeOpt(p, FindOpt(p).value);
      UncompressedFixed(p, 12, MAX_HOPS, FindOpt(p).value.start, {});
    }
  }

  /** Injecting a subnet keeps the cache key of every query that has one and whose name is
      uncompressed, or is read from octets that stay in place: exactly when an OPT that was there
      is not what is read as the question, or reads as the root name; and without an OPT exactly
      when the packet hides no DO bit behind the records it announces. */
  lemma KeySurvivesEcs(fold: Fold, p: bytes, s: Subnet, subnet: Option<Subnet>)
    requires KeyFromQuery(fold, p, subnet).Some? && (Uncompressed(p, 12) || NameStays(p))
    ensures KeyFromQuery(fold, SetEcs(p, Some(s)), subnet) == KeyFromQuery(fold, p, subnet) <==>
            if FindOpt(p).Some?
            then FindOpt(p).value.start > 12 || KeyFromQuery(fold, p, subnet).value.name == []
            else !HidesDo(p)
  {
    var out := SetEcs(p, Some(s));
    if Uncompressed(p, 12) {
      UncompressedStays(fold, p, subnet);
    }
    if FindOpt(p).Some? {
      var o := FindOpt(p).value;
      FoundFits(p);
      if o.start > 12 {
        KeyBeforeOpt(fold, p, s, subnet, o, out);
      } else {
        KeyAtOpt(fold, p, s, subnet, o, out);
      }
    } else {
      KeyAfterAppend(fold, p, s, subnet, out);
    }
  }

  /** A packet that ends at a record boundary hides nothing. */
  lemma DoStaysClear(p: bytes, s: Subnet)
    requires FindOpt(p).None? && EndsExactly(p)
    ensures !HidesDo(p) && !Do(SetEcs(p, Some(s)))
  {
    var out := SetEcs(p, Some(s));
    AppendedParts(p, s);
    DoShownExactly(p, s, out);
    if Ar(p) < 0xFFFF {
      AddedIsFound(p, s);
    }
  }

  // ---- Queries whose key changes ------------------------------------------

  // One question for the root name, no record announced, and behind it an OPT with DO set and
  // RDLENGTH zero. Up to two octets at the end of the OPT may be missing.
  predicate HidesOpt(p: bytes)
  {
    && 26 <= |p| <= 28 && U16At(p, 4) == 1 && U16At(p, 6) == 0 && U16At(p, 8) == 0 && U16At(p, 10) == 0 && p[12] == 0
    && p[17] == 0 && U16At(p, 18) == TYPE_OPT && p[24] >= 128 && forall i :: 26 <= i < |p| ==> p[i] == 0
  }

  const TRAILING_OPT: bytes :=
    [0, 0, 1, 0, 0, 1, 0, 0, 0, 0, 0, 0, 0, 0, 1, 0, 1, 0, 0, 41, 16, 0, 0, 0, 128, 0, 0, 0]
  const CUT_OPT: bytes :=
    [0, 0, 1, 0, 0, 1, 0, 0, 0, 0, 0, 0, 0, 0, 1, 0, 1, 0, 0, 41, 16, 0, 0, 0, 128, 0, 0]

  lemma {:induction false} HiddenOptExists()
    ensures HidesOpt(TRAILING_OPT) && HidesOpt(CUT_OPT)
  {}

  /** Such a query has a key, and injecting any subnet changes it. */
  lemma HiddenOptChangesKey(fold: Fold, p: bytes, s: Subnet, subnet: Option<Subnet>)
    requires HidesOpt(p)
    ensures KeyFromQuery(fold, p, subnet).Some? && Uncompressed(p, 12)
    ensures KeyFromQuery(fold, SetEcs(p, Some(s)), subnet) != KeyFromQuery(fold, p, subnet)
  {
    HidingQueryHasKey(fold, p, subnet);
    HiddenOptHidesDo(p);
    KeySurvivesEcs(fold, p, s, subnet);
  }

  lemma HidingQueryHasKey(fold: Fold, p: bytes, subnet: Option<Subnet>)
    requires HidesOpt(p)
    ensures KeyFromQuery(fold, p, subnet).Some? && Uncompressed(p, 12)
  {
    assert SkipName(p, 12) == Some(13) && ParseDomain(fold, p, 12) == Some(Parsed([], 13));
  }

  lemma HiddenOptHidesDo(p: bytes)
    requires HidesOpt(p)
    ensures FindOpt(p).None? && HidesDo(p)
  {
    assert SkipName(p, 12) == Some(13);
    assert SkipQuestions(p, 17, 0) == Some(17);
    assert SkipQuestions(p, 12, 1) == Some(17);
    assert Walk(p, 17, 0) == Some([]);
    assert SkipName(p, 17) == Some(18);
    assert U16At(p + [0, 0, 41], 26) == 0;
    assert Boundary(p, 0, 17) && DoAt(p, 17);
  }

  // One question whose name is a pointer to the octets behind an OPT without options, where
  // the one-letter name "a" stands. POINTS_BEHIND is one.
  predicate PointsBehindOpt(p: bytes)
  {
    && |p| == 32 && U16At(p, 4) == 1 && U16At(p, 6) == 0 && U16At(p, 8) == 0 && U16At(p, 10) == 1
    && p[12] == 192 && p[13] == 29 && p[18] == 0 && U16At(p, 19) == TYPE_OPT && U16At(p, 27) == 0
    && p[29] == 1 && p[30] == 97 && p[31] == 0
  }

  const POINTS_BEHIND: bytes :=
    [0, 0, 1, 0, 0, 1, 0, 0, 0, 0, 0, 1, 192, 29, 0, 1, 0, 1, 0, 0, 41, 16, 0, 0, 0, 0, 0, 0, 0, 1, 97, 0]

  lemma {:induction false} PointsBehindExists()
    ensures PointsBehindOpt(POINTS_BEHIND)
  {}

  /** Such a query asks for "a", and after injecting any subnet for the root: its key changes. */
  lemma PointerChangesKey(fold: Fold, p: bytes, s: Subnet, subnet: Option<Subnet>)
    requires FoldsAscii(fold) && PointsBehindOpt(p)
    ensures var k, k' := KeyFromQuery(fold, p, subnet), KeyFromQuery(fold, SetEcs(p, Some(s)), subnet);
            k.Some? && k.value.name == [97] && k'.Some? && k'.value.name == []
  {
    var out := SetEcs(p, Some(s));
    PointedName(fold, p);
    PointedOpt(p);
    PointedRewritten(p, s, out);
    RootPointedName(fold, out);
  }

  lemma {:induction false} PointedName(fold: Fold, p: bytes)
    requires FoldsAscii(fold) && PointsBehindOpt(p)
    ensures ParseDomain(fold, p, 12) == Some(Parsed([97], 14))
  {
    assert Labels(fold, p, 31, MAX_HOPS - 1) == Some([]);
    assert p[30..31] == [97] && Lower([97]) == [97];
    assert Labels(fold, p, 29, MAX_HOPS - 1) == Some([[97]] + []);
    assert [[97]] + [] == [[97]];
    assert PointerTarget(p, 12) == 29;
    assert Labels(fold, p, 12, MAX_HOPS) == Labels(fold, p, 29, MAX_HOPS - 1);
    assert SkipName(p, 12) == Some(14);
    assert [[97]][1..] == [];
  }

  lemma {:induction false} PointedOpt(p: bytes)
    requires PointsBehindOpt(p)
    ensures FindOpt(p).Some? && FindOpt(p).value.start == 18 && FindOpt(p).value.options == []
  {
    assert SkipName(p, 12) == Some(14);
    assert SkipQuestions(p, 18, 0) == Some(18);
    assert SkipQuestions(p, 12, 1) == Some(18);
    assert Walk(p, 18, 0) == Some([]);
    assert SkipName(p, 18) == Some(19);
    assert RrAt(p, 18) == Some(Rr(18, 19, 0));
    assert Data(p, Rr(18, 19, 0)) == [];
  }

  lemma {:induction false} PointedRewritten(p: bytes, s: Subnet, out: bytes)
    requires FindOpt(p).Some? && FindOpt(p).value.start == 18 && FindOpt(p).value.options == []
    requires out == SetEcs(p, Some(s))
    ensures |out| >= 40 && out[29] == 0 && forall i :: 0 <= i < 18 && i < |p| ==> out[i] == p[i]
  {
    FoundFits(p);
    var o := FindOpt(p).value;
    assert ParseOptions([]) == [];
    assert NewOptions(o.options, s) == [Ecs(s)];
    EncodedEcs(s);
    SpliceParts(p, o, EcsOctets(s));
    var rec := OptBytes(o, EcsOctets(s));
    assert out[18..40] == rec && out[29] == out[18..40][11] == rec[11];
    assert rec[11] == EcsOctets(s)[0];
    forall i | 0 <= i < 18 ensures out[i] == p[i] {
      assert out[..18][i] == p[..18][i];
    }
  }

  lemma {:induction false} RootPointedName(fold: Fold, out: bytes)
    requires |out| >= 40 && out[12] == 192 && out[13] == 29 && out[29] == 0
    ensures ParseDomain(fold, out, 12) == Some(Parsed([], 14))
  {
    assert Labels(fold, out, 29, MAX_HOPS - 1) == Some([]);
    assert Labels(fold, out, 12, MAX_HOPS) == Some([]);
    assert SkipName(out, 12) == Some(14);
  }

  /** A bare header has no key, and gains one: the OPT is read as its question. */
  lemma HeaderGainsKey(fold: Fold, p: bytes, s: Subnet, subnet: Option<Subnet>)
    requires |p| == 12
    ensures KeyFromQuery(fold, p, subnet).None? && KeyFromQuery(fold, SetEcs(p, Some(s)), subnet).Some?
  {
    if FindOpt(p).Some? {
      FoundFits(p);
    }
    AppendedParts(p, s);
    AppendedOptHere(p, s);
    var out := SetEcs(p, Some(s));
    assert out[12] == out[12..][0] == 0;
    KeyOfRootOpt(fold, out, Added(p, s), subnet);
  }

  // ---- What a key separates -----------------------------------------------

  predicate Ascii(s: bytes)
  {
    forall i :: 0 <= i < |s| ==> s[i] < 128
  }

  function LowerOctet(c: byte): byte
  {
    if 65 <= c <= 90 then c + 32 else c
  }

  function Lower(s: bytes): (r: bytes)
    ensures |r| == |s|
  {
    seq(|s|, i requires 0 <= i < |s| => LowerOctet(s[i]))
  }

  function LowerAll(ls: seq<bytes>): (r: seq<bytes>)
    ensures |r| == |ls|
  {
    seq(|ls|, i requires 0 <= i < |ls| => Lower(ls[i]))
  }

  // Label decoding lower-cases ASCII labels.
  ghost predicate FoldsAscii(fold: Fold)
  {
    forall s {:trigger fold(s)} :: Ascii(s) ==> fold(s) == Some(Lower(s))
  }

  predicate AllAscii(ls: seq<bytes>)
  {
    forall i :: 0 <= i < |ls| ==> Ascii(ls[i])
  }

  // The packet's question name is written as these labels, without compression.
  predicate Asks(p: bytes, ls: seq<bytes>)
  {
    && |p| >= 12 && ValidLabels(ls)
    && 12 + |EncodeName(ls)| + 4 <= |p|
    && p[12..12 + |EncodeName(ls)|] == EncodeName(ls)
  }

  lemma FoldedLower(fold: Fold, ls: seq<bytes>)
    requires FoldsAscii(fold) && AllAscii(ls)
    ensures Folded(fold, ls, LowerAll(ls))
  {}

  lemma PlainNameParses(fold: Fold, p: bytes, ls: seq<bytes>, e: nat)
    requires FoldsAscii(fold) && Asks(p, ls) && AllAscii(ls) && e == 12 + |EncodeName(ls)|
    ensures ParseDomain(fold, p, 12) == Some(Parsed(Spell([], LowerAll(ls)), e))
  {
    FoldedLower(fold, ls);
    EncodedNameParses(fold, ls, LowerAll(ls), p, 12, MAX_HOPS);
  }

  lemma PlainKey(fold: Fold, p: bytes, ls: seq<bytes>, e: nat, subnet: Option<Subnet>) returns (k: CacheKey)
    requires FoldsAscii(fold) && Asks(p, ls) && AllAscii(ls) && e == 12 + |EncodeName(ls)|
    ensures KeyFromQuery(fold, p, subnet) == Some(k)
    ensures k == CacheKey(Spell([], LowerAll(ls)), U16At(p, e), U16At(p, e + 2), Rd(p) + Cd(p) * 16, Do(p), subnet)
  {
    PlainNameParses(fold, p, ls, e);
    k := KeyFromQuery(fold, p, subnet).value;
  }

  predicate NonEmpty(ls: seq<bytes>)
  {
    forall i :: 0 <= i < |ls| ==> ls[i] != []
  }

  lemma {:induction false} SpellIsJoin(text: bytes, ls: seq<bytes>)
    requires text != []
    ensures Spell(text, ls) == Join([text] + ls, DOT)
    decreases |ls|
  {
    if ls == [] {
      assert [text] + ls == [text];
    } else {
      var next := Push(text, ls[0]);
      SpellIsJoin(next, ls[1..]);
      JoinFirstTwo(text, ls[0], ls[1..]);
      assert [text, ls[0]] + ls[1..] == [text] + ls;
    }
  }

  lemma JoinFirstTwo(a: bytes, b: bytes, rest: seq<bytes>)
    ensures Join([a + [DOT] + b] + rest, DOT) == Join([a, b] + rest, DOT)
  {
    assert ([a, b] + rest)[1..] == [b] + rest;
    assert ([b] + rest)[1..] == rest && ([a + [DOT] + b] + rest)[1..] == rest;
    if rest != [] {
      assert a + [DOT] + (b + [DOT] + Join(rest, DOT)) == (a + [DOT] + b) + [DOT] + Join(rest, DOT);
    }
  }

  lemma SpellAll(ls: seq<bytes>)
    requires ls != [] && ls[0] != []
    ensures Spell([], ls) == Join(ls, DOT) && Spell([], ls) != []
  {
    SpellIsJoin(ls[0], ls[1..]);
    assert [ls[0]] + ls[1..] == ls;
  }

  // Dotted text determines non-empty labels that hold no dot themselves.
  lemma SpellInjective(a: seq<bytes>, b: seq<bytes>)
    requires NonEmpty(a) && NonEmpty(b) && Free(a, DOT) && Free(b, DOT)
    requires Spell([], a) == Spell([], b)
    ensures a == b
  {
    if a != [] { SpellAll(a); SplitJoin(a, DOT); }
    if b != [] { SpellAll(b); SplitJoin(b, DOT); }
  }

  lemma LowerKeepsShape(ls: seq<bytes>)
    requires ValidLabels(ls) && Free(ls, DOT)
    ensures NonEmpty(LowerAll(ls)) && Free(LowerAll(ls), DOT)
  {
    forall i | 0 <= i < |ls| ensures DOT !in LowerAll(ls)[i] && LowerAll(ls)[i] != [] {
      var l := Lower(ls[i]);
      assert forall j :: 0 <= j < |l| ==> l[j] == LowerOctet(ls[i][j]) && ls[i][j] != DOT;
    }
  }

  // The octets are equal, or one letter in its two cases.
  predicate SameOctet(c: byte, d: byte)
  {
    c == d || (65 <= c <= 90 && d == c + 32) || (65 <= d <= 90 && c == d + 32)
  }

  predicate SameLabel(l: bytes, m: bytes)
  {
    |l| == |m| && forall i :: 0 <= i < |l| ==> SameOctet(l[i], m[i])
  }

  predicate SameLabels(ls: seq<bytes>, ms: seq<bytes>)
  {
    |ls| == |ms| && forall i :: 0 <= i < |ls| ==> SameLabel(ls[i], ms[i])
  }

  lemma LowerSame(l: bytes, m: bytes)
    ensures Lower(l) == Lower(m) <==> SameLabel(l, m)
  {
    if Lower(l) == Lower(m) {
      forall i | 0 <= i < |l| ensures SameOctet(l[i], m[i]) {
        assert LowerOctet(l[i]) == Lower(l)[i] == Lower(m)[i] == LowerOctet(m[i]);
      }
    }
  }

  lemma LowerAllSame(ls: seq<bytes>, ms: seq<bytes>)
    ensures LowerAll(ls) == LowerAll(ms) <==> SameLabels(ls, ms)
  {
    forall i | 0 <= i < |ls| && i < |ms| ensures Lower(ls[i]) == Lower(ms[i]) <==> SameLabel(ls[i], ms[i]) {
      LowerSame(ls[i], ms[i]);
    }
    if LowerAll(ls) == LowerAll(ms) {
      forall i | 0 <= i < |ls| ensures SameLabel(ls[i], ms[i]) {
        assert LowerAll(ls)[i] == LowerAll(ms)[i];
      }
    }
  }

  lemma SameFields(p: bytes, e: nat, q: bytes, f: nat)
    requires e + 4 <= |p| && f + 4 <= |q|
    ensures U16At(p, e) == U16At(q, f) && U16At(p, e + 2) == U16At(q, f + 2) <==> p[e..e + 4] == q[f..f + 4]
  {
    Be16OfU16(p, e);
    Be16OfU16(p, e + 2);
    Be16OfU16(q, f);
    Be16OfU16(q, f + 2);
    assert p[e..e + 4] == p[e..e + 2] + p[e + 2..e + 4] && q[f..f + 4] == q[f..f + 2] + q[f + 2..f + 4];
    if p[e..e + 4] == q[f..f + 4] {
      assert p[e..e + 4][..2] == q[f..f + 4][..2] && p[e..e + 4][2..] == q[f..f + 4][2..];
    }
  }

  lemma {:induction false} SameNames(ls: seq<bytes>, ms: seq<bytes>)
    requires ValidLabels(ls) && Free(ls, DOT) && ValidLabels(ms) && Free(ms, DOT)
    ensures Spell([], LowerAll(ls)) == Spell([], LowerAll(ms)) <==> SameLabels(ls, ms)
  {
    LowerKeepsShape(ls);
    LowerKeepsShape(ms);
    LowerAllSame(ls, ms);
    if Spell([], LowerAll(ls)) == Spell([], LowerAll(ms)) {
      SpellInjective(LowerAll(ls), LowerAll(ms));
    }
  }

  // The four octets at e and at f are the same, and so are RD, the lowest bit of octet 2, and
  // CD, the bit of value 16 of octet 3.
  predicate SameOctets(p: bytes, e: nat, q: bytes, f: nat)
    requires 12 <= e && e + 4 <= |p| && 12 <= f && f + 4 <= |q|
  {
    p[e..e + 4] == q[f..f + 4] && p[2] % 2 == q[2] % 2 && p[3] / 16 % 2 == q[3] / 16 % 2
  }

  lemma {:induction false} SameKeys(k: CacheKey, p: bytes, e: nat, l: CacheKey, q: bytes, f: nat)
    requires 12 <= e && e + 4 <= |p| && 12 <= f && f + 4 <= |q|
    requires k == CacheKey(k.name, U16At(p, e), U16At(p, e + 2), Rd(p) + Cd(p) * 16, k.dnssecOk, k.subnet)
    requires l == CacheKey(l.name, U16At(q, f), U16At(q, f + 2), Rd(q) + Cd(q) * 16, l.dnssecOk, l.subnet)
    ensures k == l <==> k.name == l.name && SameOctets(p, e, q, f) && k.dnssecOk == l.dnssecOk && k.subnet == l.subnet
  {
    SameFields(p, e, q, f);
  }

  lemma {:induction false} PlainKeysAgree(k: CacheKey, p: bytes, e: nat, ls: seq<bytes>,
                                          l: CacheKey, q: bytes, f: nat, ms: seq<bytes>)
    requires 12 <= e && e + 4 <= |p| && 12 <= f && f + 4 <= |q|
    requires ValidLabels(ls) && Free(ls, DOT) && ValidLabels(ms) && Free(ms, DOT)
    requires k == CacheKey(Spell([], LowerAll(ls)), U16At(p, e), U16At(p, e + 2), Rd(p) + Cd(p) * 16, k.dnssecOk, k.subnet)
    requires l == CacheKey(Spell([], LowerAll(ms)), U16At(q, f), U16At(q, f + 2), Rd(q) + Cd(q) * 16, l.dnssecOk, l.subnet)
    ensures k == l <==>
            SameLabels(ls, ms) && SameOctets(p, e, q, f) && k.dnssecOk == l.dnssecOk && k.subnet == l.subnet
  {
    SameKeys(k, p, e, l, q, f);
    SameNames(ls, ms);
  }

  /** Two queries with uncompressed, dot-free ASCII question names share a cache key exactly
      when their labels agree up to letter case, the four octets behind the names are the same,
      and so are the lowest bit of octet 2, the bit of value 16 of octet 3, DO and the subnet. */
  lemma {:induction false} KeySeparates(fold: Fold, p: bytes, ls: seq<bytes>, e: nat, s: Option<Subnet>,
                                        q: bytes, ms: seq<bytes>, f: nat, t: Option<Subnet>)
    requires FoldsAscii(fold)
    requires Asks(p, ls) && AllAscii(ls) && Free(ls, DOT) && e == 12 + |EncodeName(ls)|
    requires Asks(q, ms) && AllAscii(ms) && Free(ms, DOT) && f == 12 + |EncodeName(ms)|
    ensures KeyFromQuery(fold, p, s) == KeyFromQuery(fold, q, t) <==>
            SameLabels(ls, ms) && SameOctets(p, e, q, f) && Do(p) == Do(q) && s == t
  {
    var k := PlainKey(fold, p, ls, e, s);
    var l := PlainKey(fold, q, ms, f, t);
    PlainKeysAgree(k, p, e, ls, l, q, f, ms);
  }

  // Dot-freeness is needed: a label that holds a dot spells like two labels.
  lemma DottedLabelCollides(a: bytes, b: bytes)
    requires a != []
    ensures Spell([], [a + [DOT] + b]) == Spell([], [a, b])
  {
    var x, y := [a + [DOT] + b], [a, b];
    assert x[1..] == [] && y[1..] == [b] && [b][1..] == [];
    assert Spell([], x) == Spell(a + [DOT] + b, x[1..]);
    assert Spell([], y) == Spell(a, y[1..]) == Spell(Push(a, b), [b][1..]);
  }

  // ---- Building a lookup query --------------------------------------------

  // Length octet and content; the length is truncated to eight bits.
  function LabelOctets(l: bytes): bytes
  {
    [|l| % 256] + l
  }

  function NameOctets(ls: seq<bytes>): bytes
  {
    if ls == [] then [] else LabelOctets(ls[0]) + NameOctets(ls[1..])
  }

  function Header(txid: nat): (h: bytes)
    requires txid < 0x1_0000
    ensures |h| == 12
  {
    Be16(txid) + [1, 0, 0, 1, 0, 0, 0, 0, 0, 0]
  }

  function DomainLabels(domain: bytes): (ls: seq<bytes>)
    ensures |ls| >= 1
  {
    Split(TrimEnd(domain, DOT), DOT)
  }

  function LookupQuery(domain: bytes, txid: nat): bytes
    requires txid < 0x1_0000
  {
    Header(txid) + NameOctets(DomainLabels(domain)) + [0] + [0, 1, 0, 1]
  }

  method BuildLookupQuery(domain: bytes, txid: nat) returns (packet: bytes)
    requires txid < 0x1_0000
    ensures packet == LookupQuery(domain, txid)
  {
    packet := Header(txid);
    var ls := DomainLabels(domain);
    assert ls[0..] == ls;
    for i := 0 to |ls|
      invariant packet + NameOctets(ls[i..]) == Header(txid) + NameOctets(ls)
    {
      assert ls[i..][1..] == ls[i + 1..];
      ghost var rest := NameOctets(ls[i + 1..]);
      assert packet + (LabelOctets(ls[i]) + rest) == packet + LabelOctets(ls[i]) + rest;
      packet := packet + LabelOctets(ls[i]);
    }
    packet := packet + [0];
    packet := packet + [0, 1, 0, 1];
  }
}
