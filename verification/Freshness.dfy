// How long a response may be cached: the least answer TTL, or the negative TTL of
// the first SOA record (section 5 of RFC 2308) when there is no answer.

module Freshness {
  import opened Bytes
  import opened Names
  import opened Message
  import opened Ageing

  const TYPE_SOA: nat := 6

  // A complete response without error or with NXDOMAIN.
  predicate Cacheable(p: bytes)
  {
    |p| >= 12 && p[2] >= 128 && p[2] / 2 % 2 == 0 && p[3] % 16 in {0, 3}
  }

  // The least TTL of n answers, or None when one is missing, malformed or zero.
  function LeastTtl(p: bytes, pos: nat, n: nat): Option<nat>
    decreases n
  {
    if n == 0 then Some(U32_MAX)
    else
      var r := RrAt(p, pos);
      if r.None? || Ttl(p, r.value) == 0 then None
      else
        var rest := LeastTtl(p, r.value.End(), n - 1);
        if rest.None? then None else Some(Min(Ttl(p, r.value), rest.value))
  }

  // Offset of the MINIMUM field of an SOA record, if its two names fit.
  function SoaMinimum(p: bytes, r: Rr): Option<nat>
    requires In(p, r)
  {
    var mname := SkipName(p, r.body + 10);
    if mname.None? then None
    else
      var rname := SkipName(p, mname.value);
      if rname.None? || rname.value + 20 > r.End() then None else Some(rname.value + 16)
  }

  function NegativeTtl(p: bytes, pos: nat, n: nat): Option<nat>
    decreases n
  {
    if n == 0 then None
    else
      var r := RrAt(p, pos);
      if r.None? then None
      else if Type(p, r.value) == TYPE_SOA then
        var field := SoaMinimum(p, r.value);
        if field.None? then None
        else
          var ttl := Min(Ttl(p, r.value), U32At(p, field.value));
          if ttl > 0 then Some(ttl) else None
      else NegativeTtl(p, r.value.End(), n - 1)
  }

  function CacheTtl(p: bytes): Option<nat>
  {
    if !Cacheable(p) || AnswerStart(p).None? then None
    else
      var start := AnswerStart(p).value;
      if An(p) > 0 then
        var ttl := LeastTtl(p, start, An(p));
        if ttl.None? || ttl.value == U32_MAX then None else ttl
      else NegativeTtl(p, start, Ns(p))
  }

  method ResponseCacheTtl(p: bytes) returns (r: Option<nat>)
    ensures r == CacheTtl(p)
  {
    if |p| < 12 || p[2] < 128 || p[2] / 2 % 2 != 0 {
      return None;
    }
    var rcode := p[3] % 16;
    if rcode != 0 && rcode != 3 {
      return None;
    }
    var start := QuestionsLoop(p);
    if start.None? {
      return None;
    }
    if An(p) > 0 {
      var ttl := LeastTtlLoop(p, start.value, An(p));
      return if ttl.None? || ttl.value == U32_MAX then None else ttl;
    }
    r := NegativeTtlLoop(p, start.value, Ns(p));
  }

  method LeastTtlLoop(p: bytes, start: nat, n: nat) returns (r: Option<nat>)
    ensures r == LeastTtl(p, start, n)
  {
    var least: nat, offset := U32_MAX, start;
    for i := 0 to n
      invariant least <= U32_MAX
      invariant LeastTtl(p, start, n).None? <==> LeastTtl(p, offset, n - i).None?
      invariant LeastTtl(p, start, n).Some? ==> LeastTtl(p, start, n).value == Min(least, LeastTtl(p, offset, n - i).value)
    {
      var rr := ReadRr(p, offset);
      if rr.None? || Ttl(p, rr.value) == 0 {
        return None;
      }
      least := Min(least, Ttl(p, rr.value));
      offset := rr.value.End();
    }
    r := Some(least);
  }

  method NegativeTtlLoop(p: bytes, start: nat, n: nat) returns (r: Option<nat>)
    ensures r == NegativeTtl(p, start, n)
  {
    var offset := start;
    for i := 0 to n
      invariant NegativeTtl(p, offset, n - i) == NegativeTtl(p, start, n)
    {
      var rr := ReadRr(p, offset);
      if rr.None? {
        return None;
      }
      if Type(p, rr.value) == TYPE_SOA {
        var mname := SkipNameLoop(p, rr.value.body + 10);
        if mname.None? {
          return None;
        }
        var rname := SkipNameLoop(p, mname.value);
        if rname.None? || rname.value + 20 > rr.value.End() {
          return None;
        }
        var ttl := Min(Ttl(p, rr.value), U32At(p, rname.value + 16));
        return if ttl > 0 then Some(ttl) else None;
      }
      offset := rr.value.End();
    }
    r := None;
  }

  // ---- Meaning ------------------------------------------------------------

  // t is the least of these TTLs (or the unset value) and none of them is zero.
  ghost predicate IsLeast(p: bytes, rs: seq<Rr>, t: nat)
  {
    && AllIn(p, rs)
    && (forall k :: 0 <= k < |rs| ==> 1 <= Ttl(p, rs[k]) && t <= Ttl(p, rs[k]))
    && (t == U32_MAX || exists k :: 0 <= k < |rs| && t == Ttl(p, rs[k]))
  }

  // The records lie in the packet and none of their TTLs is zero.
  ghost predicate Timed(p: bytes, rs: seq<Rr>)
  {
    forall k :: 0 <= k < |rs| ==> In(p, rs[k]) && Ttl(p, rs[k]) > 0
  }

  lemma {:induction false} LeastTtlMeaning(p: bytes, pos: nat, n: nat)
    ensures LeastTtl(p, pos, n).Some? <==> Walk(p, pos, n).Some? && Timed(p, Walk(p, pos, n).value)
    ensures LeastTtl(p, pos, n).Some? ==> IsLeast(p, Walk(p, pos, n).value, LeastTtl(p, pos, n).value)
    decreases n
  {
    if n != 0 && RrAt(p, pos).Some? {
      var r := RrAt(p, pos).value;
      LeastTtlMeaning(p, r.End(), n - 1);
      if Walk(p, r.End(), n - 1).Some? {
        var rest := Walk(p, r.End(), n - 1).value;
        TimedCons(p, r, rest);
        if LeastTtl(p, pos, n).Some? {
          LeastCons(p, r, rest, LeastTtl(p, r.End(), n - 1).value);
        }
      }
    }
  }

  lemma TimedCons(p: bytes, r: Rr, rest: seq<Rr>)
    requires In(p, r)
    ensures Timed(p, [r] + rest) <==> Ttl(p, r) > 0 && Timed(p, rest)
  {
    var rs := [r] + rest;
    assert rs[0] == r && forall k :: 0 <= k < |rest| ==> rs[k + 1] == rest[k];
  }

  lemma LeastCons(p: bytes, r: Rr, rest: seq<Rr>, t: nat)
    requires In(p, r) && Ttl(p, r) > 0 && IsLeast(p, rest, t)
    ensures IsLeast(p, [r] + rest, Min(Ttl(p, r), t))
  {
    var rs := [r] + rest;
    assert rs[0] == r && forall k :: 0 <= k < |rest| ==> rs[k + 1] == rest[k];
    if Min(Ttl(p, r), t) != U32_MAX && t < Ttl(p, r) {
      var k :| 0 <= k < |rest| && t == Ttl(p, rest[k]);
      assert t == Ttl(p, rs[k + 1]);
    }
  }

  /** With answers, the cache time is the least answer TTL, and no answer TTL is zero. */
  lemma PositiveAnswer(p: bytes, t: nat)
    requires CacheTtl(p) == Some(t) && An(p) > 0
    ensures Answers(p).Some? && t >= 1
    ensures forall k :: 0 <= k < |Answers(p).value| ==>
              In(p, Answers(p).value[k]) && t <= Ttl(p, Answers(p).value[k])
    ensures exists k :: 0 <= k < |Answers(p).value| && In(p, Answers(p).value[k]) && t == Ttl(p, Answers(p).value[k])
  {
    LeastTtlMeaning(p, AnswerStart(p).value, An(p));
    WalkLength(p, AnswerStart(p).value, An(p));
  }

  // Record k of rs is the first SOA record.
  ghost predicate FirstSoa(p: bytes, rs: seq<Rr>, k: int)
  {
    && 0 <= k < |rs| && AllIn(p, rs) && Type(p, rs[k]) == 6
    && forall j :: 0 <= j < k ==> Type(p, rs[j]) != 6
  }

  // The first SOA record among the first m records yields t.
  ghost predicate SoaYields(p: bytes, pos: nat, m: nat, t: nat)
  {
    && Walk(p, pos, m + 1).Some? && FirstSoa(p, Walk(p, pos, m + 1).value, m)
    && var r := Walk(p, pos, m + 1).value[m];
       && SoaMinimum(p, r).Some? && t == Min(Ttl(p, r), U32At(p, SoaMinimum(p, r).value)) && t > 0
  }

  lemma {:induction false} NegativeTtlMeaning(p: bytes, pos: nat, n: nat) returns (m: nat)
    requires NegativeTtl(p, pos, n).Some?
    ensures m < n && SoaYields(p, pos, m, NegativeTtl(p, pos, n).value)
    decreases n
  {
    var r := RrAt(p, pos).value;
    if Type(p, r) == TYPE_SOA {
      m := 0;
      assert Walk(p, r.End(), 0) == Some([]);
      assert Walk(p, pos, 1) == Some([r] + []);
    } else {
      var m' := NegativeTtlMeaning(p, r.End(), n - 1);
      m := m' + 1;
      SoaLater(p, pos, m', NegativeTtl(p, pos, n).value);
    }
  }

  lemma SoaLater(p: bytes, pos: nat, m: nat, t: nat)
    requires RrAt(p, pos).Some? && Type(p, RrAt(p, pos).value) != TYPE_SOA
    requires SoaYields(p, RrAt(p, pos).value.End(), m, t)
    ensures SoaYields(p, pos, m + 1, t)
  {
    var r := RrAt(p, pos).value;
    var rest := Walk(p, r.End(), m + 1).value;
    var rs := Walk(p, pos, m + 2).value;
    assert rs == [r] + rest;
    assert rs[0] == r && forall k :: 1 <= k < |rs| ==> rs[k] == rest[k - 1];
  }

  /** Without answers, the cache time is the smaller of the TTL and the MINIMUM of the
      first SOA record of the authority section, and it is not zero. */
  lemma NegativeAnswer(p: bytes, t: nat)
    requires CacheTtl(p) == Some(t) && An(p) == 0
    ensures exists m :: 0 <= m < Ns(p) && SoaYields(p, AnswerStart(p).value, m, t)
  {
    var m := NegativeTtlMeaning(p, AnswerStart(p).value, Ns(p));
  }

  lemma {:induction false} NegativeTtlUnique(p: bytes, pos: nat, n: nat, m: nat, t: nat)
    requires m < n && SoaYields(p, pos, m, t)
    ensures NegativeTtl(p, pos, n) == Some(t)
    decreases n
  {
    var r, rs := RrAt(p, pos).value, Walk(p, pos, m + 1).value;
    var rest := Walk(p, r.End(), m).value;
    assert rs == [r] + rest && rs[0] == r;
    if m > 0 {
      assert rs[m] == rest[m - 1] && forall k :: 0 <= k < |rest| ==> rest[k] == rs[k + 1];
      NegativeTtlUnique(p, r.End(), n - 1, m - 1, t);
    }
  }

  lemma PositiveTtl(p: bytes)
    requires CacheTtl(p).Some?
    ensures CacheTtl(p).value >= 1
  {
    if An(p) > 0 {
      PositiveAnswer(p, CacheTtl(p).value);
    } else {
      NegativeAnswer(p, CacheTtl(p).value);
    }
  }

  /** The cache time of a response, both ways. Only a complete response with code 0 or 3 has one:
      with answers the least answer TTL if none is zero and the least is below 2^32 - 1, without
      answers what the first SOA record yields. */
  lemma {:induction false} CacheTimeExactly(p: bytes, t: nat)
    ensures CacheTtl(p) == Some(t) <==>
            && |p| >= 12 && p[2] / 128 == 1 && p[2] / 2 % 2 == 0 && (p[3] % 16 == 0 || p[3] % 16 == 3)
            && AnswerStart(p).Some?
            && if An(p) > 0 then Answers(p).Some? && IsLeast(p, Answers(p).value, t) && t < 0xFFFF_FFFF
               else exists m :: 0 <= m < Ns(p) && SoaYields(p, AnswerStart(p).value, m, t)
  {
    if Cacheable(p) && AnswerStart(p).Some? {
      var start := AnswerStart(p).value;
      if An(p) > 0 {
        LeastTtlMeaning(p, start, An(p));
      } else {
        if CacheTtl(p) == Some(t) {
          NegativeAnswer(p, t);
        }
        if m :| 0 <= m < Ns(p) && SoaYields(p, start, m, t) {
          NegativeTtlUnique(p, start, Ns(p), m, t);
        }
      }
    }
  }

  // ---- Where MINIMUM stands -----------------------------------------------

  // The data of an SOA record: two names, the sixteen octets of SERIAL, REFRESH, RETRY and
  // EXPIRE, and MINIMUM.
  function SoaData(mname: seq<bytes>, rname: seq<bytes>, front: bytes, minimum: nat): bytes
    requires ValidLabels(mname) && ValidLabels(rname) && |front| == 16 && minimum <= U32_MAX
  {
    EncodeName(mname) + (EncodeName(rname) + (front + Be32(minimum)))
  }

  lemma EncodedNameSkipped(ls: seq<bytes>, buf: bytes, pos: nat)
    requires ValidLabels(ls) && pos + |EncodeName(ls)| <= |buf| && buf[pos..pos + |EncodeName(ls)|] == EncodeName(ls)
    ensures SkipName(buf, pos) == Some(pos + |EncodeName(ls)|)
  {
    EncodedNameParses((l: bytes) => Some(l), ls, ls, buf, pos, 0);
  }

  // The parts of x + y, where it is written.
  lemma Parts(buf: bytes, pos: nat, x: bytes, y: bytes)
    requires pos + |x| + |y| <= |buf| && buf[pos..pos + |x| + |y|] == x + y
    ensures buf[pos..pos + |x|] == x && buf[pos + |x|..pos + |x| + |y|] == y
  {
    SliceSlice(buf, pos, pos + |x| + |y|, 0, |x|);
    SliceSlice(buf, pos, pos + |x| + |y|, |x|, |x| + |y|);
    assert (x + y)[..|x|] == x && (x + y)[|x|..] == y;
  }

  lemma FieldValue(buf: bytes, pos: nat, n: nat)
    requires n <= U32_MAX && pos + 4 <= |buf| && buf[pos..pos + 4] == Be32(n)
    ensures U32At(buf, pos) == n
  {
    assert U32At(buf, pos) == U32At(buf[pos..pos + 4], 0);
  }

  lemma {:induction false} MinimumAt(p: bytes, r: Rr, x: bytes, y: bytes, front: bytes, minimum: nat)
    requires In(p, r) && minimum <= U32_MAX && |front| == 16 && Data(p, r) == x + (y + (front + Be32(minimum)))
    ensures p[r.body + 10..r.body + 10 + |x|] == x
    ensures p[r.body + 10 + |x|..r.body + 10 + |x| + |y|] == y
    ensures r.End() == r.body + 10 + |x| + |y| + 20 && U32At(p, r.End() - 4) == minimum
  {
    var pos, fields := r.body + 10, front + Be32(minimum);
    assert |Data(p, r)| == |x| + |y| + 20;
    Parts(p, pos, x, y + fields);
    Parts(p, pos + |x|, y, fields);
    Parts(p, pos + |x| + |y|, front, Be32(minimum));
    FieldValue(p, r.End() - 4, minimum);
  }

  // The first SOA record decides, whether it yields anything or not.
  lemma {:induction false} FirstSoaDecides(p: bytes, pos: nat, n: nat, m: nat, r: Rr)
    requires m < n && Walk(p, pos, m + 1).Some? && FirstSoa(p, Walk(p, pos, m + 1).value, m)
    requires r == Walk(p, pos, m + 1).value[m] && SoaMinimum(p, r).Some?
    ensures var t := Min(Ttl(p, r), U32At(p, SoaMinimum(p, r).value));
            NegativeTtl(p, pos, n) == if t > 0 then Some(t) else None
    decreases n
  {
    var first, rs := RrAt(p, pos).value, Walk(p, pos, m + 1).value;
    var rest := Walk(p, first.End(), m).value;
    assert rs == [first] + rest && rs[0] == first;
    if m > 0 {
      assert rs[m] == rest[m - 1] && forall k :: 0 <= k < |rest| ==> rest[k] == rs[k + 1];
      FirstSoaDecides(p, first.End(), n - 1, m - 1, r);
    }
  }

  lemma {:induction false} MinimumIsLast(p: bytes, r: Rr, mname: seq<bytes>, rname: seq<bytes>, front: bytes, minimum: nat)
    requires In(p, r) && ValidLabels(mname) && ValidLabels(rname) && |front| == 16 && minimum <= U32_MAX
    requires Data(p, r) == SoaData(mname, rname, front, minimum)
    ensures SoaMinimum(p, r) == Some(r.End() - 4) && U32At(p, r.End() - 4) == minimum
  {
    var x, y := EncodeName(mname), EncodeName(rname);
    MinimumAt(p, r, x, y, front, minimum);
    EncodedNameSkipped(mname, p, r.body + 10);
    EncodedNameSkipped(rname, p, r.body + 10 + |x|);
  }

  /** Where the first authority record of type 6 holds two names and five four-octet fields, a
      response without answers is cached for the smaller of its TTL and the fifth field, and not
      at all when that is zero. */
  lemma {:induction false} MinimumIsFifthField(p: bytes, m: nat, r: Rr, mname: seq<bytes>, rname: seq<bytes>,
                                               front: bytes, minimum: nat)
    requires Cacheable(p) && AnswerStart(p).Some? && An(p) == 0 && m < Ns(p)
    requires Walk(p, AnswerStart(p).value, m + 1).Some? && FirstSoa(p, Walk(p, AnswerStart(p).value, m + 1).value, m)
    requires r == Walk(p, AnswerStart(p).value, m + 1).value[m]
    requires ValidLabels(mname) && ValidLabels(rname) && |front| == 16 && minimum <= U32_MAX
    requires Data(p, r) == SoaData(mname, rname, front, minimum)
    ensures var t := if minimum < Ttl(p, r) then minimum else Ttl(p, r);
            CacheTtl(p) == if t == 0 then None else Some(t)
  {
    MinimumIsLast(p, r, mname, rname, front, minimum);
    FirstSoaDecides(p, AnswerStart(p).value, Ns(p), m, r);
  }
}
