// The round trip of built lookup queries through the name parser.

module Lookup {
  import opened Bytes
  import opened Text
  import opened Names
  import opened Keys
  import opened Edns
  import opened Query

  lemma {:induction false} ValidNameOctets(ls: seq<bytes>)
    requires ValidLabels(ls)
    ensures NameOctets(ls) + [0] == EncodeName(ls)
  {
    if ls != [] {
      ValidNameOctets(ls[1..]);
      assert LabelOctets(ls[0]) + NameOctets(ls[1..]) + [0] == LabelOctets(ls[0]) + (NameOctets(ls[1..]) + [0]);
    }
  }

  lemma LowerConcat(a: bytes, b: bytes)
    ensures Lower(a + b) == Lower(a) + Lower(b)
  {}

  lemma {:induction false} LowerJoin(ls: seq<bytes>)
    requires ls != []
    ensures Lower(Join(ls, DOT)) == Join(LowerAll(ls), DOT)
  {
    if |ls| > 1 {
      LowerJoin(ls[1..]);
      LowerConcat(ls[0] + [DOT], Join(ls[1..], DOT));
      LowerConcat(ls[0], [DOT]);
      assert Lower([DOT]) == [DOT];
      assert LowerAll(ls)[1..] == LowerAll(ls[1..]);
    }
  }

  lemma {:induction false} SplitAscii(s: bytes)
    requires Ascii(s)
    ensures AllAscii(Split(s, DOT))
  {
    if s != [] {
      SplitAscii(s[1..]);
    }
  }

  // What a name of the packet is followed by: the root label, type A, class IN.
  const TAIL: bytes := [0, 0, 1, 0, 1]

  lemma QueryLayout(domain: bytes, txid: nat)
    requires txid < 0x1_0000
    ensures var q := LookupQuery(domain, txid); |q| >= 12 && q[12..] == NameOctets(DomainLabels(domain)) + TAIL
  {
    var q, name := LookupQuery(domain, txid), NameOctets(DomainLabels(domain));
    assert q == Header(txid) + (name + TAIL);
  }

  // A query for valid labels asks for exactly these labels, and ends four octets later.
  lemma LookupAsks(domain: bytes, txid: nat)
    requires txid < 0x1_0000 && ValidLabels(DomainLabels(domain))
    ensures var q, enc := LookupQuery(domain, txid), EncodeName(DomainLabels(domain));
            |q| == 12 + |enc| + 4 && q[12..12 + |enc|] == enc
  {
    var q, ls := LookupQuery(domain, txid), DomainLabels(domain);
    var enc, name := EncodeName(ls), NameOctets(ls);
    QueryLayout(domain, txid);
    ValidNameOctets(ls);
    assert name + TAIL == enc + [0, 1, 0, 1];
    assert q[12..12 + |enc|] == q[12..][..|enc|] == enc;
  }

  // The lower-cased labels spell the lower-cased domain.
  lemma SpelledDomain(domain: bytes)
    requires ValidLabels(DomainLabels(domain))
    ensures Spell([], LowerAll(DomainLabels(domain))) == Lower(TrimEnd(domain, DOT))
  {
    var ls := DomainLabels(domain);
    SpellAll(LowerAll(ls));
    LowerJoin(ls);
    JoinSplit(TrimEnd(domain, DOT), DOT);
  }

  // Valid labels are read back, lower-cased, up to four octets before the end.
  lemma ValidLabelsRoundTrip(fold: Fold, domain: bytes, txid: nat)
    requires FoldsAscii(fold) && Ascii(domain) && txid < 0x1_0000 && ValidLabels(DomainLabels(domain))
    ensures var q := LookupQuery(domain, txid);
            ParseDomain(fold, q, 12) == Some(Parsed(Lower(TrimEnd(domain, DOT)), |q| - 4))
  {
    var q, ls := LookupQuery(domain, txid), DomainLabels(domain);
    SpelledDomain(domain);
    SplitAscii(TrimEnd(domain, DOT));
    LookupAsks(domain, txid);
    AskedNameParses(fold, q, ls, Lower(TrimEnd(domain, DOT)), EncodeName(ls));
  }

  lemma AskedNameParses(fold: Fold, q: bytes, ls: seq<bytes>, name: bytes, enc: bytes)
    requires FoldsAscii(fold) && AllAscii(ls) && ValidLabels(ls) && enc == EncodeName(ls)
    requires |q| == 12 + |enc| + 4 && q[12..12 + |enc|] == enc && Spell([], LowerAll(ls)) == name
    ensures ParseDomain(fold, q, 12) == Some(Parsed(name, |q| - 4))
  {
    PlainNameParses(fold, q, ls, |q| - 4);
  }

  lemma {:induction false} HeadSpelled(ls: seq<bytes>, c: byte, rest: bytes)
    requires ls != [] && c == |ls[0]| % 256 && rest == NameOctets(ls[1..]) + TAIL
    ensures NameOctets(ls) + TAIL == [c] + ls[0] + rest && |NameOctets(ls)| == 1 + |ls[0]| + |rest| - 5
  {
    assert LabelOctets(ls[0]) == [c] + ls[0];
    assert [c] + ls[0] + NameOctets(ls[1..]) + TAIL == [c] + ls[0] + rest;
  }

  // Some part of an ASCII label is still decoded by lower-casing it.
  lemma {:induction false} FoldHead(fold: Fold, q: bytes, pos: nat, c: byte, l: bytes, rest: bytes, n: nat)
    requires FoldsAscii(fold) && Ascii(l) && pos <= |q| && q[pos..] == [c] + l + rest && n <= |l|
    ensures |q| == pos + 1 + |l| + |rest| && q[pos] == c && q[pos + 1 + |l|..] == rest
    ensures fold(q[pos + 1..pos + 1 + n]) == Some(Lower(l[..n]))
  {
    HeadParts(q, pos, c, l, rest, n);
    assert Ascii(l[..n]);
  }

  lemma HeadParts(q: bytes, pos: nat, c: byte, l: bytes, rest: bytes, n: nat)
    requires pos <= |q| && q[pos..] == [c] + l + rest && n <= |l|
    ensures |q| == pos + 1 + |l| + |rest| && q[pos] == c
    ensures q[pos + 1..pos + 1 + n] == l[..n] && q[pos + 1 + |l|..] == rest
  {
    var s := q[pos..];
    assert q[pos] == s[0];
    assert s[1..1 + n] == l[..n] && s[1 + |l|..] == rest;
    assert q[pos..|q|] == s;
    SliceSlice(q, pos, |q|, 1, 1 + n);
    assert q[pos + 1 + |l|..] == s[1 + |l|..];
  }

  // The packet holds these ASCII labels at pos, one of them too short or too long.
  ghost predicate BadName(q: bytes, pos: nat, ls: seq<bytes>)
  {
    && ls != [] && AllAscii(ls) && Free(ls, DOT) && !ValidLabels(ls)
    && pos <= |q| && q[pos..] == NameOctets(ls) + TAIL
  }

  // The parser succeeds at pos, and skipping ends where the name was meant to end.
  ghost predicate Reads(fold: Fold, q: bytes, pos: nat, hops: nat)
  {
    Labels(fold, q, pos, hops).Some? && SkipName(q, pos) == Some(|q| - 4)
  }

  lemma {:induction false} FirstLabelRead(fold: Fold, q: bytes, pos: nat, ls: seq<bytes>, hops: nat, b: nat)
    requires FoldsAscii(fold) && BadName(q, pos, ls) && Reads(fold, q, pos, hops) && b == |ls[0]| % 256
    ensures 1 <= b <= 63 && b <= |ls[0]| && pos + 1 + |ls[0]| + 5 <= |q|
    ensures Reads(fold, q, pos + 1 + b, hops)
    ensures Labels(fold, q, pos, hops).value == [Lower(ls[0][..b])] + Labels(fold, q, pos + 1 + b, hops).value
  {
    assert b <= |ls[0]|;
    var rest := NameOctets(ls[1..]) + TAIL;
    HeadSpelled(ls, b, rest);
    FoldHead(fold, q, pos, b, ls[0], rest, b);
  }

  // A label cut short by the eight-bit length is followed by at least one more.
  lemma CutLabelGoesOn(fold: Fold, q: bytes, next: nat, hops: nat)
    requires Reads(fold, q, next, hops) && next + 100 <= |q|
    ensures Labels(fold, q, next, hops).value != []
  {}

  // These labels are a name, but not the lower-cased one that was asked for.
  ghost predicate Misspells(fs: seq<bytes>, ls: seq<bytes>)
    requires ls != []
  {
    fs != [] && fs[0] != [] && Join(fs, DOT) != Lower(Join(ls, DOT))
  }

  lemma GoodHeadMisspells(ls: seq<bytes>, rest: seq<bytes>)
    requires |ls| > 1 && ls[0] != [] && Misspells(rest, ls[1..])
    ensures Misspells([Lower(ls[0])] + rest, ls)
  {
    var fs := [Lower(ls[0])] + rest;
    assert fs[1..] == rest;
    SameHead(ls, Join(rest, DOT));
  }

  lemma CutHeadMisspells(ls: seq<bytes>, rest: seq<bytes>, b: nat)
    requires ls != [] && rest != [] && 0 < b < |ls[0]| && DOT !in ls[0]
    ensures Misspells([Lower(ls[0][..b])] + rest, ls)
  {
    var fs := [Lower(ls[0][..b])] + rest;
    assert fs[1..] == rest;
    DotTooEarly(ls[0], b, ls, Join(rest, DOT));
  }

  lemma TailIsBad(q: bytes, pos: nat, ls: seq<bytes>, next: nat)
    requires BadName(q, pos, ls) && 1 <= |ls[0]| <= 63 && next == pos + 1 + |ls[0]|
    ensures |ls| > 1 && BadName(q, next, ls[1..])
  {
    TailInvalid(ls);
    var c, rest := |ls[0]| % 256, NameOctets(ls[1..]) + TAIL;
    HeadSpelled(ls, c, rest);
    HeadParts(q, pos, c, ls[0], rest, 0);
  }

  /** If a label has no octet or more than 63, the parser cannot both reach the end of
      the name and spell the domain. */
  lemma {:induction false} InvalidLabelsMisread(fold: Fold, q: bytes, pos: nat, ls: seq<bytes>, hops: nat)
    requires FoldsAscii(fold) && BadName(q, pos, ls) && Reads(fold, q, pos, hops)
    ensures Misspells(Labels(fold, q, pos, hops).value, ls)
    decreases |ls|
  {
    if 1 <= |ls[0]| <= 63 {
      var next := pos + 1 + |ls[0]|;
      GoodHeadRead(fold, q, pos, ls, hops, next);
      TailIsBad(q, pos, ls, next);
      InvalidLabelsMisread(fold, q, next, ls[1..], hops);
      GoodHeadMisspells(ls, Labels(fold, q, next, hops).value);
    } else {
      CutHeadRead(fold, q, pos, ls, hops);
    }
  }

  lemma {:induction false} GoodHeadRead(fold: Fold, q: bytes, pos: nat, ls: seq<bytes>, hops: nat, next: nat)
    requires FoldsAscii(fold) && BadName(q, pos, ls) && Reads(fold, q, pos, hops)
    requires 1 <= |ls[0]| <= 63 && next == pos + 1 + |ls[0]|
    ensures Reads(fold, q, next, hops)
    ensures Labels(fold, q, pos, hops).value == [Lower(ls[0])] + Labels(fold, q, next, hops).value
  {
    FirstLabelRead(fold, q, pos, ls, hops, |ls[0]|);
    assert ls[0][..|ls[0]|] == ls[0];
  }

  lemma {:induction false} CutHeadRead(fold: Fold, q: bytes, pos: nat, ls: seq<bytes>, hops: nat)
    requires FoldsAscii(fold) && BadName(q, pos, ls) && Reads(fold, q, pos, hops) && !(1 <= |ls[0]| <= 63)
    ensures Misspells(Labels(fold, q, pos, hops).value, ls)
  {
    var b := |ls[0]| % 256;
    FirstLabelRead(fold, q, pos, ls, hops, b);
    CutLabelGoesOn(fold, q, pos + 1 + b, hops);
    CutHeadMisspells(ls, Labels(fold, q, pos + 1 + b, hops).value, b);
  }

  lemma TailInvalid(ls: seq<bytes>)
    requires !ValidLabels(ls) && ls != [] && 1 <= |ls[0]| <= 63 && AllAscii(ls) && Free(ls, DOT)
    ensures ls[1..] != [] && !ValidLabels(ls[1..]) && AllAscii(ls[1..]) && Free(ls[1..], DOT)
  {
    var i :| 0 <= i < |ls| && !(1 <= |ls[i]| <= 63);
    assert ls[1..][i - 1] == ls[i];
  }

  lemma {:induction false} SameHead(ls: seq<bytes>, x: bytes)
    requires |ls| > 1 && x != Lower(Join(ls[1..], DOT))
    ensures Lower(ls[0]) + [DOT] + x != Lower(Join(ls, DOT))
  {
    var a, y := Lower(ls[0]), Lower(Join(ls[1..], DOT));
    LowerConcat(ls[0] + [DOT], Join(ls[1..], DOT));
    LowerConcat(ls[0], [DOT]);
    assert Lower([DOT]) == [DOT];
    var u, v := a + [DOT] + x, a + [DOT] + y;
    assert u[|a| + 1..] == x && v[|a| + 1..] == y;
  }

  lemma DotTooEarly(l: bytes, b: nat, ls: seq<bytes>, rest: bytes)
    requires ls != [] && ls[0] == l && b < |l| && DOT !in l
    ensures Lower(l[..b]) + [DOT] + rest != Lower(Join(ls, DOT))
  {
    var whole := Join(ls, DOT);
    assert |whole| >= |l| && whole[b] == l[b];
    assert Lower(whole)[b] == LowerOctet(l[b]) != DOT;
    assert (Lower(l[..b]) + [DOT] + rest)[b] == DOT;
  }

  /** A built query parses back to the lower-cased domain, ending four octets before the
      packet end, exactly when every label of the domain has 1 to 63 octets. */
  lemma LookupRoundTrip(fold: Fold, domain: bytes, txid: nat)
    requires FoldsAscii(fold) && Ascii(domain) && txid < 0x1_0000
    ensures var q := LookupQuery(domain, txid);
            ParseDomain(fold, q, 12) == Some(Parsed(Lower(TrimEnd(domain, DOT)), |q| - 4))
            <==> ValidLabels(DomainLabels(domain))
  {
    var q, t := LookupQuery(domain, txid), TrimEnd(domain, DOT);
    var ls := DomainLabels(domain);
    if ValidLabels(ls) {
      ValidLabelsRoundTrip(fold, domain, txid);
    } else if ParseDomain(fold, q, 12) == Some(Parsed(Lower(t), |q| - 4)) {
      QueryLayout(domain, txid);
      SplitAscii(t);
      JoinSplit(t, DOT);
      ParsedNameEnd(fold, q, 12, MAX_HOPS);
      InvalidLabelsMisread(fold, q, 12, ls, MAX_HOPS);
      SpellAll(Labels(fold, q, 12, MAX_HOPS).value);
    }
  }

  lemma {:induction false} HeaderOctets(domain: bytes, txid: nat)
    requires txid < 0x1_0000
    ensures var q := LookupQuery(domain, txid);
            |q| >= 16 && U16At(q, 0) == txid && q[2..12] == [1, 0, 0, 1, 0, 0, 0, 0, 0, 0] && q[|q| - 4..] == [0, 1, 0, 1]
  {
    var q, h := LookupQuery(domain, txid), Header(txid);
    assert q[..12] == h && forall i :: 0 <= i < 12 ==> q[i] == h[i];
    assert U16At(q, 0) == U16At(h, 0) == U16At(Be16(txid), 0);
    assert q[2..12] == h[2..12] == [1, 0, 0, 1, 0, 0, 0, 0, 0, 0];
  }

  lemma NoOptAnnounced(q: bytes)
    requires |q| >= 12 && U16At(q, 10) == 0
    ensures FindOpt(q).None?
  {}

  /** A built query has the id given, asks one question for type A in class IN with recursion
      desired and nothing else, and its cache key is that of its lower-cased domain. */
  lemma {:induction false} LookupKey(fold: Fold, domain: bytes, txid: nat, subnet: Option<Subnet>)
    requires FoldsAscii(fold) && Ascii(domain) && txid < 0x1_0000 && ValidLabels(DomainLabels(domain))
    ensures var q := LookupQuery(domain, txid);
            && |q| >= 12 && U16At(q, 0) == txid && q[2..12] == [1, 0, 0, 1, 0, 0, 0, 0, 0, 0]
            && KeyFromQuery(fold, q, subnet) == Some(CacheKey(Lower(TrimEnd(domain, DOT)), 1, 1, 1, false, subnet))
  {
    HeaderOctets(domain, txid);
    LookupRoundTrip(fold, domain, txid);
    KeyOfLookup(fold, LookupQuery(domain, txid), Lower(TrimEnd(domain, DOT)), subnet);
  }

  lemma {:induction false} KeyOfLookup(fold: Fold, q: bytes, name: bytes, subnet: Option<Subnet>)
    requires |q| >= 16 && q[2..12] == [1, 0, 0, 1, 0, 0, 0, 0, 0, 0] && q[|q| - 4..] == [0, 1, 0, 1]
    requires ParseDomain(fold, q, 12) == Some(Parsed(name, |q| - 4))
    ensures KeyFromQuery(fold, q, subnet) == Some(CacheKey(name, 1, 1, 1, false, subnet))
  {
    var e := |q| - 4;
    assert q[2] == q[2..12][0] && q[3] == q[2..12][1] && q[10] == q[2..12][8] && q[11] == q[2..12][9];
    NoOptAnnounced(q);
    assert q[e] == q[e..][0] && q[e + 1] == q[e..][1] && q[e + 2] == q[e..][2] && q[e + 3] == q[e..][3];
  }
}
