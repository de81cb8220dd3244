// Redirect answers: A records crafted into the query packet itself.

module Redirect {
  import opened Bytes
  import opened Names
  import opened Message
  import opened Edns
  import opened Freshness

  type Ip = s: bytes | |s| == 4 witness [0, 0, 0, 0]

  const REDIRECT_TTL: nat := 60

  // One answer: a pointer to the question name, its type and class, TTL 60, one address.
  function AnswerRecord(head: bytes, ip: Ip): (b: bytes)
    requires |head| == 4
    ensures |b| == 16
  {
    [0xC0, 0x0C] + head + [0, 0, 0, 60, 0, 4] + ip
  }

  function AnswerRecords(head: bytes, ips: seq<Ip>): (b: bytes)
    requires |head| == 4
    ensures |b| == 16 * |ips|
  {
    if ips == [] then [] else AnswerRecord(head, ips[0]) + AnswerRecords(head, ips[1..])
  }

  // The texts that parse as addresses.
  function ValidIps(parse: bytes -> Option<Ip>, texts: seq<bytes>): seq<Ip>
  {
    if texts == [] then []
    else
      var ip := parse(texts[0]);
      (if ip.None? then [] else [ip.value]) + ValidIps(parse, texts[1..])
  }

  function WithFlags(p: bytes, hi: byte, lo: byte): (r: bytes)
    requires |p| >= 12
    ensures |r| == |p|
  {
    p[2 := hi][3 := lo]
  }

  // ANCOUNT is the number of addresses truncated to 16 bits.
  function WithAncount(p: bytes, n: nat): (r: bytes)
    requires |p| >= 12
    ensures |r| == |p|
  {
    var count := n % 0x1_0000;
    p[6 := count / 256][7 := count % 256]
  }

  function Craft(p: bytes, qnameEnd: nat, ips: seq<Ip>): Option<bytes>
  {
    if |p| < 12 || qnameEnd + 4 > |p| || ips == [] then None
    else
      var flagged := WithFlags(p, 0x81, 0x80);
      var head, at := flagged[qnameEnd..qnameEnd + 4], qnameEnd + 4;
      var counted := WithAncount(flagged, |ips|);
      Some(counted[..at] + AnswerRecords(head, ips) + counted[at..])
  }

  method CraftRedirectResponse(p: bytes, qnameEnd: nat, texts: seq<bytes>, parse: bytes -> Option<Ip>)
    returns (r: Option<bytes>)
    ensures r == Craft(p, qnameEnd, ValidIps(parse, texts))
  {
    if |p| < 12 {
      return None;
    }
    var resp := p[2 := 0x81];
    resp := resp[3 := 0x80];
    if qnameEnd + 4 > |resp| {
      return None;
    }
    var head := resp[qnameEnd..qnameEnd + 4];
    var ips := FilterIps(texts, parse);
    if ips == [] {
      return None;
    }
    var ancount := |ips| % 0x1_0000;
    resp := resp[6 := ancount / 256];
    resp := resp[7 := ancount % 256];
    var answers := AppendAnswers(head, ips);
    r := Some(resp[..qnameEnd + 4] + answers + resp[qnameEnd + 4..]);
  }

  method FilterIps(texts: seq<bytes>, parse: bytes -> Option<Ip>) returns (ips: seq<Ip>)
    ensures ips == ValidIps(parse, texts)
  {
    ips := [];
    assert texts[0..] == texts;
    for i := 0 to |texts|
      invariant ips + ValidIps(parse, texts[i..]) == ValidIps(parse, texts)
    {
      assert texts[i..][1..] == texts[i + 1..];
      var ip := parse(texts[i]);
      ghost var rest := ValidIps(parse, texts[i + 1..]);
      if ip.Some? {
        assert ips + ([ip.value] + rest) == ips + [ip.value] + rest;
        ips := ips + [ip.value];
      } else {
        assert [] + rest == rest;
      }
    }
  }

  method AppendAnswers(head: bytes, ips: seq<Ip>) returns (b: bytes)
    requires |head| == 4
    ensures b == AnswerRecords(head, ips)
  {
    b := [];
    assert ips[0..] == ips;
    for i := 0 to |ips|
      invariant b + AnswerRecords(head, ips[i..]) == AnswerRecords(head, ips)
    {
      assert ips[i..][1..] == ips[i + 1..];
      ghost var rest := AnswerRecords(head, ips[i + 1..]);
      assert b + (AnswerRecord(head, ips[i]) + rest) == b + AnswerRecord(head, ips[i]) + rest;
      b := b + AnswerRecord(head, ips[i]);
    }
  }

  // ---- Reading the crafted answers ----------------------------------------

  // The crafted answers for these addresses stand at pos.
  ghost predicate AnswersAt(buf: bytes, pos: nat, head: bytes, ips: seq<Ip>)
  {
    |head| == 4 && pos + 16 * |ips| <= |buf| && buf[pos..pos + 16 * |ips|] == AnswerRecords(head, ips)
  }

  lemma FirstAnswer(buf: bytes, pos: nat, head: bytes, ips: seq<Ip>)
    requires ips != [] && AnswersAt(buf, pos, head, ips)
    ensures AnswersAt(buf, pos + 16, head, ips[1..])
    ensures buf[pos..pos + 16] == AnswerRecord(head, ips[0])
  {
    var all, one := AnswerRecords(head, ips), AnswerRecord(head, ips[0]);
    var n := 16 * |ips|;
    assert all == one + AnswerRecords(head, ips[1..]);
    SliceSlice(buf, pos, pos + n, 0, 16);
    SliceSlice(buf, pos, pos + n, 16, n);
    assert all[0..16] == one && all[16..n] == AnswerRecords(head, ips[1..]);
  }

  lemma AnswerReadBack(buf: bytes, pos: nat, head: bytes, ip: Ip)
    requires |head| == 4 && pos + 16 <= |buf| && buf[pos..pos + 16] == AnswerRecord(head, ip)
    ensures var r := Rr(pos, pos + 2, 4);
            RrAt(buf, pos) == Some(r) && Type(buf, r) == U16At(head, 0) && Ttl(buf, r) == REDIRECT_TTL && Data(buf, r) == ip
  {
    var a := AnswerRecord(head, ip);
    forall i | 0 <= i < 16 ensures buf[pos + i] == a[i] {
      assert buf[pos..pos + 16][i] == buf[pos + i];
    }
    assert a == [0xC0, 0x0C, head[0], head[1], head[2], head[3], 0, 0, 0, 60, 0, 4, ip[0], ip[1], ip[2], ip[3]];
    assert SkipName(buf, pos) == Some(pos + 2);
    assert buf[pos + 12..pos + 16] == ip;
  }

  // The first m crafted answers carry the first m addresses.
  lemma {:induction false} AddressesReadBack(buf: bytes, pos: nat, head: bytes, ips: seq<Ip>, m: nat)
    requires AnswersAt(buf, pos, head, ips) && U16At(head, 0) == TYPE_A && m <= |ips|
    ensures AddressesFrom(buf, pos, m) == ips[..m]
    decreases m
  {
    if m != 0 {
      FirstAnswer(buf, pos, head, ips);
      AnswerReadBack(buf, pos, head, ips[0]);
      AddressesReadBack(buf, pos + 16, head, ips[1..], m - 1);
      assert [ips[0]] + ips[1..][..m - 1] == ips[..m];
    }
  }

  // The first m crafted answers all have TTL 60.
  lemma {:induction false} TtlReadBack(buf: bytes, pos: nat, head: bytes, ips: seq<Ip>, m: nat)
    requires AnswersAt(buf, pos, head, ips) && m <= |ips|
    ensures LeastTtl(buf, pos, m) == Some(if m == 0 then U32_MAX else REDIRECT_TTL)
    decreases m
  {
    if m != 0 {
      FirstAnswer(buf, pos, head, ips);
      AnswerReadBack(buf, pos, head, ips[0]);
      TtlReadBack(buf, pos + 16, head, ips[1..], m - 1);
      LeastStep(buf, pos, m, pos + 16);
    }
  }

  lemma LeastStep(buf: bytes, pos: nat, m: nat, next: nat)
    requires m > 0 && RrAt(buf, pos).Some? && RrAt(buf, pos).value.End() == next
    requires Ttl(buf, RrAt(buf, pos).value) == REDIRECT_TTL
    requires LeastTtl(buf, next, m - 1).Some? && LeastTtl(buf, next, m - 1).value >= REDIRECT_TTL
    ensures LeastTtl(buf, pos, m) == Some(REDIRECT_TTL)
  {}

  // Read as authority records, the crafted answers hold no SOA.
  lemma {:induction false} NoNegativeTtl(buf: bytes, pos: nat, head: bytes, ips: seq<Ip>, m: nat)
    requires AnswersAt(buf, pos, head, ips) && U16At(head, 0) == TYPE_A && m <= |ips|
    ensures NegativeTtl(buf, pos, m) == None
    decreases m
  {
    if m != 0 {
      FirstAnswer(buf, pos, head, ips);
      AnswerReadBack(buf, pos, head, ips[0]);
      NoNegativeTtl(buf, pos + 16, head, ips[1..], m - 1);
    }
  }

  // ---- Records behind the answers move ------------------------------------

  // The OPT found by passing over `skip` records from pos and scanning n more.
  function Reach(buf: bytes, pos: nat, skip: nat, n: nat): Option<EdnsOpt>
    decreases skip
  {
    if skip == 0 then ScanOpt(buf, pos, n)
    else
      var r := RrAt(buf, pos);
      if r.None? then None else Reach(buf, r.value.End(), skip - 1, n)
  }

  lemma {:induction false} ReachIsScan(buf: bytes, pos: nat, skip: nat, n: nat)
    ensures var rs := Walk(buf, pos, skip);
            Reach(buf, pos, skip, n) == if rs.None? then None else ScanOpt(buf, WalkEnd(pos, rs.value), n)
    decreases skip
  {
    if skip != 0 && RrAt(buf, pos).Some? {
      var r := RrAt(buf, pos).value;
      ReachIsScan(buf, r.End(), skip - 1, n);
      if Walk(buf, r.End(), skip - 1).Some? {
        var rest := Walk(buf, r.End(), skip - 1).value;
        assert WalkEnd(pos, [r] + rest) == WalkEnd(r.End(), rest);
      }
    }
  }

  // What is left of a after taking b away.
  function Less(a: nat, b: nat): nat
  {
    if a <= b then 0 else a - b
  }

  lemma ReachStep(buf: bytes, pos: nat, next: nat, n: nat)
    requires RrAt(buf, pos).Some? && RrAt(buf, pos).value.End() == next && Type(buf, RrAt(buf, pos).value) != TYPE_OPT
    ensures n > 0 ==> Reach(buf, pos, 0, n) == Reach(buf, next, 0, n - 1)
  {}

  lemma AnswerPassed(buf: bytes, pos: nat, head: bytes, ips: seq<Ip>)
    requires ips != [] && AnswersAt(buf, pos, head, ips) && U16At(head, 0) == TYPE_A
    ensures AnswersAt(buf, pos + 16, head, ips[1..])
    ensures RrAt(buf, pos).Some? && RrAt(buf, pos).value.End() == pos + 16 && Type(buf, RrAt(buf, pos).value) == TYPE_A
  {
    FirstAnswer(buf, pos, head, ips);
    AnswerReadBack(buf, pos, head, ips[0]);
  }

  lemma ReachSkip(buf: bytes, pos: nat, next: nat, skip: nat, n: nat)
    requires skip > 0 && RrAt(buf, pos).Some? && RrAt(buf, pos).value.End() == next
    ensures Reach(buf, pos, skip, n) == Reach(buf, next, skip - 1, n)
  {}

  // m records that hold no OPT and end at `to` are used up before a walk goes on behind them.
  ghost predicate Plain(buf: bytes, pos: nat, m: nat, to: nat)
    decreases m
  {
    if m == 0 then pos == to
    else RrAt(buf, pos).Some? && Type(buf, RrAt(buf, pos).value) != TYPE_OPT
         && Plain(buf, RrAt(buf, pos).value.End(), m - 1, to)
  }

  lemma {:induction false} AnswersPlain(buf: bytes, pos: nat, head: bytes, ips: seq<Ip>, to: nat)
    requires AnswersAt(buf, pos, head, ips) && U16At(head, 0) == TYPE_A && to == pos + 16 * |ips|
    ensures Plain(buf, pos, |ips|, to)
    decreases |ips|
  {
    if ips != [] {
      AnswerPassed(buf, pos, head, ips);
      AnswersPlain(buf, pos + 16, head, ips[1..], to);
    }
  }

  lemma {:induction false} ReachPastPlain(buf: bytes, pos: nat, m: nat, to: nat, skip: nat, n: nat)
    requires Plain(buf, pos, m, to)
    ensures Reach(buf, pos, skip, n) == Reach(buf, to, Less(skip, m), Less(n, Less(m, skip)))
    decreases m
  {
    if m != 0 {
      var next := RrAt(buf, pos).value.End();
      if skip > 0 {
        ReachSkip(buf, pos, next, skip, n);
        ReachPastPlain(buf, next, m - 1, to, skip - 1, n);
      } else if n > 0 {
        ReachStep(buf, pos, next, n);
        ReachPastPlain(buf, next, m - 1, to, 0, n - 1);
      }
    }
  }

  // From p on, a holds what b holds from q on, and it ends there.
  ghost predicate Shifted(a: bytes, p: nat, b: bytes, q: nat)
  {
    p <= q && |a| - p == |b| - q && (p <= |a| ==> a[p..] == b[q..])
  }

  lemma SuffixMoves(a: bytes, p: nat, b: bytes, q: nat, k: int)
    requires |a| - p == |b| - q && (p <= |a| ==> a[p..] == b[q..]) && RrAt(a, p).Some?
    requires k == RrAt(a, p).value.End() - p
    ensures 0 <= k && p + k <= |a| && a[p + k..] == b[q + k..]
  {
    SkipNameAdvances(a, p);
    assert a[p + k..] == a[p..][k..] && b[q + k..] == b[q..][k..];
  }

  function Moved(o: Option<EdnsOpt>, d: nat): Option<EdnsOpt>
  {
    if o.None? then None else Some(o.value.(start := o.value.start + d, end := o.value.end + d))
  }

  lemma {:induction false} FieldsMove(a: bytes, p: nat, b: bytes, q: nat, r: Rr, s: Rr)
    requires p <= q && |a| - p == |b| - q && p <= |a| && a[p..] == b[q..] && In(a, r) && In(b, s)
    requires r.start == p && s.start == q && p <= r.body && s.body - q == r.body - p && s.rdlen == r.rdlen
    ensures Type(b, s) == Type(a, r) && Some(OptOf(b, s)) == Moved(Some(OptOf(a, r)), q - p)
  {
    var d := q - p;
    forall i | p <= i < |a| ensures a[i] == b[i + d] {
      assert a[p..][i - p] == b[q..][i - p];
    }
    assert Data(b, s) == Data(a, r);
  }

  lemma RecordMoves(a: bytes, p: nat, b: bytes, q: nat)
    requires Shifted(a, p, b, q) && RrAt(a, p).Some?
    ensures RrAt(b, q).Some? && RrAt(b, q).value.End() == RrAt(a, p).value.End() + (q - p)
    ensures Type(b, RrAt(b, q).value) == Type(a, RrAt(a, p).value)
    ensures Some(OptOf(b, RrAt(b, q).value)) == Moved(Some(OptOf(a, RrAt(a, p).value)), q - p)
    ensures a[RrAt(a, p).value.End()..] == b[RrAt(b, q).value.End()..]
  {
    RrAtShift(a, p, b, q);
    SuffixMoves(a, p, b, q, RrAt(a, p).value.End() - p);
    SkipNameAdvances(a, p);
    FieldsMove(a, p, b, q, RrAt(a, p).value, RrAt(b, q).value);
  }

  lemma {:induction false} ScanShift(a: bytes, p: nat, b: bytes, q: nat, n: nat)
    requires Shifted(a, p, b, q)
    ensures ScanOpt(b, q, n) == Moved(ScanOpt(a, p, n), q - p)
    decreases n
  {
    if n > 0 {
      var ends := MovedEnds(a, p, b, q);
      if ends.None? {
        ScanEnds(a, p, b, q, n);
      } else {
        ScanShift(a, ends.value.0, b, ends.value.1, n - 1);
        ScanStep(a, p, b, q, n, ends.value.0, ends.value.1);
      }
    }
  }

  // Where the first records end, if there are any.
  lemma MovedEnds(a: bytes, p: nat, b: bytes, q: nat) returns (ends: Option<(nat, nat)>)
    requires Shifted(a, p, b, q)
    ensures ends.None? ==> RrAt(a, p).None? && RrAt(b, q).None?
    ensures ends.Some? ==> RrAt(a, p).Some? && RrAt(a, p).value.End() == ends.value.0
    ensures ends.Some? ==> RrAt(b, q).Some? && RrAt(b, q).value.End() == ends.value.1
    ensures ends.Some? ==> ends.value.1 - ends.value.0 == q - p && Shifted(a, ends.value.0, b, ends.value.1)
  {
    if RrAt(a, p).None? {
      RrAtShift(a, p, b, q);
      ends := None;
    } else {
      RecordMoves(a, p, b, q);
      ends := Some((RrAt(a, p).value.End(), RrAt(b, q).value.End()));
    }
  }

  lemma ScanEnds(a: bytes, p: nat, b: bytes, q: nat, n: nat)
    requires RrAt(a, p).None? && RrAt(b, q).None?
    ensures ScanOpt(a, p, n) == None && ScanOpt(b, q, n) == None
  {}

  lemma {:induction false} ScanStep(a: bytes, p: nat, b: bytes, q: nat, n: nat, e: nat, f: nat)
    requires n > 0 && Shifted(a, p, b, q) && RrAt(a, p).Some? && RrAt(b, q).Some?
    requires RrAt(a, p).value.End() == e && RrAt(b, q).value.End() == f && f - e == q - p
    requires ScanOpt(b, f, n - 1) == Moved(ScanOpt(a, e, n - 1), f - e)
    ensures ScanOpt(b, q, n) == Moved(ScanOpt(a, p, n), q - p)
  {
    RecordMoves(a, p, b, q);
  }

  lemma {:induction false} ReachShift(a: bytes, p: nat, b: bytes, q: nat, skip: nat, n: nat)
    requires Shifted(a, p, b, q)
    ensures Reach(b, q, skip, n) == Moved(Reach(a, p, skip, n), q - p)
    decreases skip
  {
    if skip == 0 {
      ScanShift(a, p, b, q, n);
    } else {
      var ends := MovedEnds(a, p, b, q);
      if ends.Some? {
        ReachShift(a, ends.value.0, b, ends.value.1, skip - 1, n);
      }
    }
  }

  // ---- The round trip -----------------------------------------------------

  // One question whose name ends at e, asking for type A.
  predicate AsksForA(p: bytes, e: nat)
  {
    |p| >= 12 && Qd(p) == 1 && SkipName(p, 12) == Some(e) && e + 4 <= |p| && U16At(p, e) == TYPE_A
  }

  // The crafted packet, part by part.
  ghost predicate Crafted(p: bytes, e: nat, ips: seq<Ip>, resp: bytes)
  {
    && 12 < e && e + 4 <= |p| && |resp| == |p| + 16 * |ips|
    && (forall i :: 0 <= i < e + 4 && i !in {2, 3, 6, 7} ==> resp[i] == p[i])
    && resp[2] == 0x81 && resp[3] == 0x80 && U16At(resp, 6) == |ips| % 0x1_0000
    && AnswersAt(resp, e + 4, p[e..e + 4], ips)
    && resp[e + 4 + 16 * |ips|..] == p[e + 4..]
  }

  lemma CraftParts(p: bytes, e: nat, ips: seq<Ip>)
    requires |p| >= 12 && 12 < e && e + 4 <= |p| && ips != []
    ensures Craft(p, e, ips).Some? && Crafted(p, e, ips, Craft(p, e, ips).value)
  {
    var flagged := WithFlags(p, 0x81, 0x80);
    var counted, at := WithAncount(flagged, |ips|), e + 4;
    var head, n := flagged[e..at], 16 * |ips|;
    var resp := Craft(p, e, ips).value;
    var mid := AnswerRecords(head, ips);
    assert resp == counted[..at] + mid + counted[at..];
    assert head == p[e..at];
    assert resp[at..at + n] == mid;
    assert resp[at + n..] == counted[at..] == p[at..];
    assert U16At(resp, 6) == U16At(counted, 6);
  }

  lemma CraftedStart(p: bytes, e: nat, ips: seq<Ip>, resp: bytes)
    requires AsksForA(p, e) && Crafted(p, e, ips, resp)
    ensures |resp| >= 12 && Qd(resp) == 1 && SkipQuestions(resp, 12, 1) == Some(e + 4) && AnswerStart(resp) == Some(e + 4)
    ensures An(resp) == |ips| % 0x1_0000 && Ns(resp) == Ns(p) && Ar(resp) == Ar(p)
  {
    OneQuestion(p, e);
    SkipQuestionsLocal(p, resp, 12, 1);
  }

  lemma CraftedAddresses(p: bytes, e: nat, ips: seq<Ip>, resp: bytes)
    requires AsksForA(p, e) && Crafted(p, e, ips, resp)
    ensures ARecords(resp) == ips[..|ips| % 0x1_0000]
    ensures ARecords(resp) == ips <==> |ips| < 0x1_0000
  {
    CraftedStart(p, e, ips, resp);
    AddressesReadBack(resp, e + 4, p[e..e + 4], ips, |ips| % 0x1_0000);
    CutIsWhole(ips);
  }

  lemma CutIsWhole(ips: seq<Ip>)
    ensures ips[..|ips| % 0x1_0000] == ips <==> |ips| < 0x1_0000
  {
    if |ips| < 0x1_0000 {
      assert ips[..|ips|] == ips;
    } else {
      assert |ips[..|ips| % 0x1_0000]| < |ips|;
    }
  }

  lemma CraftedTtl(p: bytes, e: nat, ips: seq<Ip>, resp: bytes, n: nat)
    requires AsksForA(p, e) && Crafted(p, e, ips, resp) && ips != [] && n == |ips| % 0x1_0000
    ensures CacheTtl(resp) == if n == 0 then None else Some(REDIRECT_TTL)
  {
    CraftedStart(p, e, ips, resp);
    var start, head := e + 4, p[e..e + 4];
    if n == 0 {
      NoNegativeTtl(resp, start, head, ips, Ns(resp));
      TtlOfAuthority(resp, start);
    } else {
      TtlReadBack(resp, start, head, ips, n);
      TtlOfAnswers(resp, start, n);
    }
  }

  lemma TtlOfAnswers(resp: bytes, start: nat, n: nat)
    requires |resp| >= 12 && resp[2] == 0x81 && resp[3] == 0x80
    requires AnswerStart(resp) == Some(start) && An(resp) == n > 0 && LeastTtl(resp, start, n) == Some(REDIRECT_TTL)
    ensures CacheTtl(resp) == Some(REDIRECT_TTL)
  {}

  lemma TtlOfAuthority(resp: bytes, start: nat)
    requires |resp| >= 12 && AnswerStart(resp) == Some(start) && An(resp) == 0 && NegativeTtl(resp, start, Ns(resp)) == None
    ensures CacheTtl(resp) == None
  {}

  lemma {:induction false} CraftedOpt(p: bytes, e: nat, ips: seq<Ip>, resp: bytes)
    requires AsksForA(p, e) && Crafted(p, e, ips, resp)
    ensures FindOpt(resp) == Moved(OptBehind(p, e, |ips|), 16 * |ips|)
  {
    CraftedLayout(p, e, ips, resp, e + 4 + 16 * |ips|);
    OptBehindLayout(p, e, resp, |ips|, e + 4 + 16 * |ips|);
  }

  // What the sections of a crafted response look like to a walk.
  ghost predicate Layout(p: bytes, e: nat, resp: bytes, m: nat, to: nat)
  {
    && |p| >= 12 && |resp| >= 12 && Qd(resp) == 1 && SkipQuestions(resp, 12, 1) == Some(e + 4)
    && An(resp) == m % 0x1_0000 && Ns(resp) == Ns(p) && Ar(resp) == Ar(p)
    && Plain(resp, e + 4, m, to) && to == e + 4 + 16 * m
    && e + 4 <= |p| && |resp| == |p| + 16 * m && resp[to..] == p[e + 4..]
  }

  lemma CraftedLayout(p: bytes, e: nat, ips: seq<Ip>, resp: bytes, to: nat)
    requires AsksForA(p, e) && Crafted(p, e, ips, resp) && to == e + 4 + 16 * |ips|
    ensures Layout(p, e, resp, |ips|, to)
  {
    CraftedStart(p, e, ips, resp);
    CraftedPlain(resp, e + 4, p[e], p[e + 1], p[e..e + 4], ips, to);
  }

  lemma CraftedPlain(resp: bytes, at: nat, hi: byte, lo: byte, head: bytes, ips: seq<Ip>, to: nat)
    requires AnswersAt(resp, at, head, ips) && head[0] == hi && head[1] == lo && hi as int * 256 + lo == TYPE_A
    requires to == at + 16 * |ips|
    ensures Plain(resp, at, |ips|, to)
  {
    AnswersPlain(resp, at, head, ips, to);
  }

  lemma {:induction false} OptBehindLayout(p: bytes, e: nat, resp: bytes, m: nat, to: nat)
    requires Layout(p, e, resp, m, to)
    ensures FindOpt(resp) == Moved(OptBehind(p, e, m), 16 * m)
  {
    var skip := m % 0x1_0000 + Ns(p);
    CraftedReach(resp, e + 4, m % 0x1_0000, Ns(p), Ar(p));
    ReachBehind(p, resp, e + 4, to, m, skip, Ar(p));
  }

  lemma ReachBehind(p: bytes, resp: bytes, at: nat, to: nat, m: nat, skip: nat, n: nat)
    requires Plain(resp, at, m, to) && at <= to && at <= |p| && |p| - at == |resp| - to && resp[to..] == p[at..]
    ensures Reach(resp, at, skip, n) == Moved(Reach(p, at, Less(skip, m), Less(n, Less(m, skip))), to - at)
  {
    ReachPastPlain(resp, at, m, to, skip, n);
    ReachShift(p, at, resp, to, Less(skip, m), Less(n, Less(m, skip)));
  }

  lemma CraftedReach(resp: bytes, at: nat, an: nat, ns: nat, ar: nat)
    requires |resp| >= 12 && Qd(resp) == 1 && SkipQuestions(resp, 12, 1) == Some(at)
    requires An(resp) == an && Ns(resp) == ns && Ar(resp) == ar
    ensures FindOpt(resp) == Reach(resp, at, an + ns, ar)
  {
    FoundIsReached(resp, at);
  }

  lemma FoundIsReached(buf: bytes, at: nat)
    requires |buf| >= 12 && Qd(buf) == 1 && SkipQuestions(buf, 12, 1) == Some(at)
    ensures FindOpt(buf) == Reach(buf, at, An(buf) + Ns(buf), Ar(buf))
  {
    ReachIsScan(buf, at, An(buf) + Ns(buf), Ar(buf));
  }

  // The OPT that is found behind n crafted answers in place of the answers of p: ANCOUNT
  // counts n modulo 2^16 of them, and the other sections use up those it does not count.
  function OptBehind(p: bytes, e: nat, n: nat): Option<EdnsOpt>
    requires |p| >= 12
  {
    var skip := n % 0x1_0000 + Ns(p);
    Reach(p, e + 4, Less(skip, n), Less(Ar(p), Less(n, skip)))
  }

  /** Reading the crafted response to a type A query gives back exactly the addresses, in
      order, exactly when there are fewer than 65536 of them. */
  lemma RedirectRoundTrip(p: bytes, e: nat, ips: seq<Ip>)
    requires AsksForA(p, e) && ips != []
    ensures Craft(p, e, ips).Some?
    ensures ARecords(Craft(p, e, ips).value) == ips <==> |ips| < 0x1_0000
  {
    SkipNameAdvances(p, 12);
    CraftParts(p, e, ips);
    CraftedAddresses(p, e, ips, Craft(p, e, ips).value);
  }

  /** The crafted response may be cached for 60 seconds, unless the 16-bit answer count
      wraps to zero; then it is not cached. */
  lemma RedirectCacheTtl(p: bytes, e: nat, ips: seq<Ip>)
    requires AsksForA(p, e) && ips != []
    ensures Craft(p, e, ips).Some?
    ensures CacheTtl(Craft(p, e, ips).value) == if |ips| % 0x1_0000 == 0 then None else Some(60)
  {
    SkipNameAdvances(p, 12);
    CraftParts(p, e, ips);
    CraftedTtl(p, e, ips, Craft(p, e, ips).value, |ips| % 0x1_0000);
  }

  /** The OPT found in a crafted response is the one behind the crafted answers, 16 octets
      further for each address. Of an answerless query with fewer than 65536 addresses that
      is its own OPT, unchanged, or none if it had none. */
  lemma RedirectKeepsOpt(p: bytes, e: nat, ips: seq<Ip>)
    requires AsksForA(p, e) && ips != []
    ensures Craft(p, e, ips).Some? && FindOpt(Craft(p, e, ips).value) == Moved(OptBehind(p, e, |ips|), 16 * |ips|)
    ensures An(p) == 0 && |ips| < 0x1_0000 ==> OptBehind(p, e, |ips|) == FindOpt(p)
  {
    SkipNameAdvances(p, 12);
    CraftParts(p, e, ips);
    CraftedOpt(p, e, ips, Craft(p, e, ips).value);
    OwnOptBehind(p, e, |ips|);
  }

  lemma OwnOptBehind(p: bytes, e: nat, n: nat)
    requires AsksForA(p, e)
    ensures An(p) == 0 && n < 0x1_0000 ==> OptBehind(p, e, n) == FindOpt(p)
  {
    OneQuestion(p, e);
    if n < 0x1_0000 {
      FoundIsReached(p, e + 4);
      UncountedNone(n, Ns(p), Ar(p));
    }
  }

  lemma OneQuestion(p: bytes, e: nat)
    requires AsksForA(p, e)
    ensures SkipQuestions(p, 12, 1) == Some(e + 4)
  {
    assert SkipQuestions(p, e + 4, 0) == Some(e + 4);
  }

  // Below 2^16 every crafted answer is counted as one.
  lemma UncountedNone(n: nat, ns: nat, ar: nat)
    requires n < 0x1_0000
    ensures var skip := n % 0x1_0000 + ns; Less(skip, n) == ns && Less(ar, Less(n, skip)) == ar
  {}
}
