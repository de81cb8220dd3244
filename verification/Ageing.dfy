// Ageing the records of a cached response in place.

module Ageing {
  import opened Bytes
  import opened Names
  import opened Message
  import opened Edns

  // ---- Ageing -------------------------------------------------------------

  function Min(a: nat, b: nat): nat { if a < b then a else b }

  // Seconds left of a TTL: zero when stale, else a saturating difference.
  function Remaining(ttl: nat, elapsed: nat, stale: bool): (left: nat)
    ensures left <= ttl
  {
    var spent := Min(elapsed, U32_MAX);
    if stale || ttl < spent then 0 else ttl - spent
  }

  function PutTtl(buf: bytes, body: nat, ttl: nat): (r: bytes)
    requires body + 10 <= |buf| && ttl <= U32_MAX
    ensures |r| == |buf|
  {
    seq(|buf|, i requires 0 <= i < |buf| => if body + 4 <= i < body + 8 then Be32(ttl)[i - (body + 4)] else buf[i])
  }

  lemma PutTtlFrame(buf: bytes, body: nat, ttl: nat)
    requires body + 10 <= |buf| && ttl <= U32_MAX
    ensures var r := PutTtl(buf, body, ttl);
            && U32At(r, body + 4) == ttl
            && forall i :: 0 <= i < |buf| && !(body + 4 <= i < body + 8) ==> r[i] == buf[i]
  {
    var r, v := PutTtl(buf, body, ttl), Be32(ttl);
    assert r[body + 4] == v[0] && r[body + 5] == v[1] && r[body + 6] == v[2] && r[body + 7] == v[3];
    assert U32At(r, body + 4) == U32At(v, 0);
  }

  // One record: its TTL is written before its end is checked.
  function AgeRecord(buf: bytes, pos: nat, elapsed: nat, stale: bool): (Option<nat>, bytes)
  {
    var name := SkipName(buf, pos);
    if name.None? || name.value + 10 > |buf| then (None, buf)
    else
      var out := PutTtl(buf, name.value, Remaining(U32At(buf, name.value + 4), elapsed, stale));
      var end := name.value + 10 + U16At(out, name.value + 8);
      (if end > |buf| then None else Some(end), out)
  }

  function AgeFrom(buf: bytes, pos: nat, n: nat, elapsed: nat, stale: bool): (bool, bytes)
    decreases n
  {
    if n == 0 then (true, buf)
    else
      var (end, out) := AgeRecord(buf, pos, elapsed, stale);
      if end.None? then (false, out) else AgeFrom(out, end.value, n - 1, elapsed, stale)
  }

  function AgeResponse(buf: bytes, elapsed: nat, stale: bool): (bool, bytes)
  {
    if |buf| < 12 || AnswerStart(buf).None? then (false, buf)
    else AgeFrom(buf, AnswerStart(buf).value, An(buf) + Ns(buf), elapsed, stale)
  }

  // The answer and authority records.
  function Records(buf: bytes): Option<seq<Rr>>
  {
    if |buf| < 12 || AnswerStart(buf).None? then None
    else Walk(buf, AnswerStart(buf).value, An(buf) + Ns(buf))
  }

  method PutTtlInPlace(packet: array<byte>, body: nat, ttl: nat)
    requires body + 10 <= packet.Length && ttl <= U32_MAX
    modifies packet
    ensures packet[..] == PutTtl(old(packet[..]), body, ttl)
  {
    var v := Be32(ttl);
    for i := 0 to 4
      invariant forall k :: 0 <= k < packet.Length ==>
        packet[k] == if body + 4 <= k < body + 4 + i then v[k - (body + 4)] else old(packet[k])
    {
      packet[body + 4 + i] := v[i];
    }
  }

  method AgeRecordInPlace(packet: array<byte>, pos: nat, elapsed: nat, stale: bool) returns (end: Option<nat>)
    modifies packet
    ensures (end, packet[..]) == AgeRecord(old(packet[..]), pos, elapsed, stale)
  {
    var name := SkipNameLoop(packet[..], pos);
    if name.None? || name.value + 10 > packet.Length {
      return None;
    }
    var ttl := U32At(packet[..], name.value + 4);
    PutTtlInPlace(packet, name.value, Remaining(ttl, elapsed, stale));
    var next := name.value + 10 + U16At(packet[..], name.value + 8);
    end := if next > packet.Length then None else Some(next);
  }

  method AgeResponseTtls(packet: array<byte>, elapsed: nat, stale: bool) returns (ok: bool)
    modifies packet
    ensures (ok, packet[..]) == AgeResponse(old(packet[..]), elapsed, stale)
  {
    if packet.Length < 12 {
      return false;
    }
    var start := QuestionsLoop(packet[..]);
    if start.None? {
      return false;
    }
    ok := AgeRecordsInPlace(packet, start.value, An(packet[..]) + Ns(packet[..]), elapsed, stale);
  }

  method AgeRecordsInPlace(packet: array<byte>, start: nat, n: nat, elapsed: nat, stale: bool) returns (ok: bool)
    modifies packet
    ensures (ok, packet[..]) == AgeFrom(old(packet[..]), start, n, elapsed, stale)
  {
    var offset := start;
    ghost var goal := AgeFrom(packet[..], start, n, elapsed, stale);
    for i := 0 to n
      invariant AgeFrom(packet[..], offset, n - i, elapsed, stale) == goal
    {
      var end := AgeRecordInPlace(packet, offset, elapsed, stale);
      if end.None? {
        return false;
      }
      offset := end.value;
    }
    ok := true;
  }

  // ---- What ageing changes ------------------------------------------------

  // Octet i belongs to the TTL field of one of these records.
  ghost predicate InTtl(rs: seq<Rr>, i: int)
  {
    exists k :: 0 <= k < |rs| && rs[k].body + 4 <= i < rs[k].body + 8
  }

  ghost predicate AllIn(buf: bytes, rs: seq<Rr>)
  {
    forall k :: 0 <= k < |rs| ==> In(buf, rs[k])
  }

  // From pos on, the packets differ at most in the TTL fields of rs.
  ghost predicate SameButTtl(a: bytes, b: bytes, pos: nat, rs: seq<Rr>)
  {
    |a| == |b| && forall i :: pos <= i < |a| && !InTtl(rs, i) ==> a[i] == b[i]
  }

  // A TTL shows `after` once `elapsed` seconds have passed: less by just that many, or zero
  // when they are more than it had or the packet is stale.
  ghost predicate Shows(before: nat, after: nat, elapsed: nat, stale: bool)
  {
    if stale || before < elapsed then after == 0 else after + elapsed == before
  }

  // b is a with exactly the TTL fields of rs aged.
  ghost predicate Aged(a: bytes, b: bytes, rs: seq<Rr>, elapsed: nat, stale: bool)
  {
    && AllIn(a, rs) && SameButTtl(a, b, 0, rs)
    && forall k :: 0 <= k < |rs| ==> Shows(Ttl(a, rs[k]), Ttl(b, rs[k]), elapsed, stale)
  }

  // A walk depends on the octets from its start on.
  lemma {:induction false} WalkSameSuffix(a: bytes, b: bytes, pos: nat, n: nat)
    requires |a| == |b| && forall i :: pos <= i < |a| ==> a[i] == b[i]
    ensures Walk(a, pos, n) == Walk(b, pos, n)
    decreases n
  {
    if n != 0 {
      RecordSameSuffix(a, b, pos);
      if RrAt(a, pos).Some? {
        WalkSameSuffix(a, b, RrAt(a, pos).value.End(), n - 1);
      }
    }
  }

  // b is a with the TTL field of r aged.
  ghost predicate AgedOne(a: bytes, b: bytes, r: Rr, elapsed: nat, stale: bool)
  {
    && In(a, r) && |a| == |b|
    && Shows(Ttl(a, r), Ttl(b, r), elapsed, stale)
    && forall i :: 0 <= i < |a| && !(r.body + 4 <= i < r.body + 8) ==> b[i] == a[i]
  }

  lemma AgeRecordExact(buf: bytes, pos: nat, elapsed: nat, stale: bool)
    ensures AgeRecord(buf, pos, elapsed, stale).0
         == if RrAt(buf, pos).None? then None else Some(RrAt(buf, pos).value.End())
    ensures RrAt(buf, pos).Some? ==>
              AgedOne(buf, AgeRecord(buf, pos, elapsed, stale).1, RrAt(buf, pos).value, elapsed, stale)
  {
    var name := SkipName(buf, pos);
    if name.Some? && name.value + 10 <= |buf| {
      var left := Remaining(U32At(buf, name.value + 4), elapsed, stale);
      var out := PutTtl(buf, name.value, left);
      PutTtlFrame(buf, name.value, left);
      assert U16At(out, name.value + 8) == U16At(buf, name.value + 8);
    }
  }

  lemma {:induction false} FirstRecordAged(buf: bytes, pos: nat, n: nat, elapsed: nat, stale: bool) returns (mid: bytes)
    requires n > 0 && RrAt(buf, pos).Some?
    ensures AgedOne(buf, mid, RrAt(buf, pos).value, elapsed, stale)
    ensures AgeFrom(buf, pos, n, elapsed, stale) == AgeFrom(mid, RrAt(buf, pos).value.End(), n - 1, elapsed, stale)
    ensures Walk(mid, RrAt(buf, pos).value.End(), n - 1) == Walk(buf, RrAt(buf, pos).value.End(), n - 1)
  {
    var r := RrAt(buf, pos).value;
    AgeRecordExact(buf, pos, elapsed, stale);
    mid := AgeRecord(buf, pos, elapsed, stale).1;
    WalkSameSuffix(mid, buf, r.End(), n - 1);
  }

  // The first record of a walk, and the walk after it.
  lemma WalkTail(buf: bytes, pos: nat, n: nat, rs: seq<Rr>)
    requires n > 0 && Walk(buf, pos, n) == Some(rs)
    ensures |rs| == n && RrAt(buf, pos) == Some(rs[0]) && Walk(buf, rs[0].End(), n - 1) == Some(rs[1..])
    ensures forall k :: 1 <= k < |rs| ==> rs[0].End() <= rs[k].body
  {
    WalkLength(buf, pos, n);
    BodiesAfter(buf, rs[0].End(), n - 1);
    assert forall k :: 1 <= k < |rs| ==> rs[k] == rs[1..][k - 1];
  }

  lemma SameButTtlCons(a: bytes, mid: bytes, b: bytes, rs: seq<Rr>)
    requires rs != [] && In(a, rs[0]) && SameButTtl(a, mid, 0, [rs[0]]) && SameButTtl(mid, b, 0, rs[1..])
    ensures SameButTtl(a, b, 0, rs)
  {
    forall i | 0 <= i < |a| && !InTtl(rs, i) ensures a[i] == b[i] {
      assert !InTtl(rs[1..], i) by {
        assert forall k :: 0 <= k < |rs[1..]| ==> rs[1..][k] == rs[k + 1];
      }
      assert !InTtl([rs[0]], i) by {
        assert [rs[0]][0] == rs[0];
      }
    }
  }

  // The TTL of a record is kept where no TTL field of rs lies in it.
  lemma TtlKept(a: bytes, b: bytes, rs: seq<Rr>, r: Rr)
    requires SameButTtl(a, b, 0, rs) && In(a, r)
    requires forall k :: 0 <= k < |rs| ==> r.End() <= rs[k].body || rs[k].body + 10 <= r.body
    ensures Ttl(b, r) == Ttl(a, r)
  {
    forall i | r.body + 4 <= i < r.body + 8 ensures b[i] == a[i] {
      assert !InTtl(rs, i);
    }
  }

  lemma AgedCons(a: bytes, mid: bytes, b: bytes, rs: seq<Rr>, elapsed: nat, stale: bool)
    requires rs != [] && AgedOne(a, mid, rs[0], elapsed, stale) && Aged(mid, b, rs[1..], elapsed, stale)
    requires forall k :: 1 <= k < |rs| ==> rs[0].End() <= rs[k].body
    ensures Aged(a, b, rs, elapsed, stale)
  {
    var r, rest := rs[0], rs[1..];
    assert forall k :: 0 <= k < |rest| ==> rest[k] == rs[k + 1];
    assert SameButTtl(a, mid, 0, [r]) by {
      forall i | 0 <= i < |a| && !InTtl([r], i) ensures a[i] == mid[i] {
        assert !([r][0].body + 4 <= i < [r][0].body + 8);
      }
    }
    SameButTtlCons(a, mid, b, rs);
    forall k | 0 <= k < |rs| ensures In(a, rs[k]) && Shows(Ttl(a, rs[k]), Ttl(b, rs[k]), elapsed, stale) {
      if k == 0 {
        TtlKept(mid, b, rest, r);
      } else {
        assert rs[k] == rest[k - 1];
        TtlKept(a, mid, [r], rs[k]);
      }
    }
  }

  lemma {:induction false} AgeFromSucceeds(buf: bytes, pos: nat, n: nat, elapsed: nat, stale: bool)
    ensures AgeFrom(buf, pos, n, elapsed, stale).0 <==> Walk(buf, pos, n).Some?
    decreases n
  {
    if n != 0 && RrAt(buf, pos).Some? {
      var mid := FirstRecordAged(buf, pos, n, elapsed, stale);
      AgeFromSucceeds(mid, RrAt(buf, pos).value.End(), n - 1, elapsed, stale);
    } else if n != 0 {
      AgeRecordExact(buf, pos, elapsed, stale);
    }
  }

  lemma {:induction false} AgeFromAges(buf: bytes, pos: nat, n: nat, rs: seq<Rr>, elapsed: nat, stale: bool, out: bytes)
    requires Walk(buf, pos, n) == Some(rs) && out == AgeFrom(buf, pos, n, elapsed, stale).1
    ensures Aged(buf, out, rs, elapsed, stale)
    decreases n
  {
    if n != 0 {
      WalkTail(buf, pos, n, rs);
      var mid := FirstRecordAged(buf, pos, n, elapsed, stale);
      AgeFromAges(mid, rs[0].End(), n - 1, rs[1..], elapsed, stale, out);
      AgedCons(buf, mid, out, rs, elapsed, stale);
    }
  }

  lemma BodiesAfter(buf: bytes, pos: nat, n: nat)
    requires Walk(buf, pos, n).Some?
    ensures forall k :: 0 <= k < |Walk(buf, pos, n).value| ==> pos <= Walk(buf, pos, n).value[k].body
  {
    WalkLength(buf, pos, n);
    forall k | 0 <= k < n ensures pos <= Walk(buf, pos, n).value[k].body {
      WalkIndex(buf, pos, n, k);
    }
  }

  /** Ageing succeeds exactly when the answer and authority records can be walked. Then each of
      their TTLs is less by the elapsed seconds, or zero, and no other octet is changed. */
  lemma AgeExact(buf: bytes, elapsed: nat, stale: bool)
    ensures AgeResponse(buf, elapsed, stale).0 <==> Records(buf).Some?
    ensures Records(buf).Some? ==>
              Aged(buf, AgeResponse(buf, elapsed, stale).1, Records(buf).value, elapsed, stale)
  {
    if |buf| >= 12 && AnswerStart(buf).Some? {
      var start, n := AnswerStart(buf).value, An(buf) + Ns(buf);
      AgeFromSucceeds(buf, start, n, elapsed, stale);
      if Walk(buf, start, n).Some? {
        AgeFromAges(buf, start, n, Walk(buf, start, n).value, elapsed, stale, AgeResponse(buf, elapsed, stale).1);
      }
    }
  }

  // ---- What ageing keeps --------------------------------------------------

  lemma {:induction false} WalkFrame(a: bytes, b: bytes, pos: nat, n: nat, rs: seq<Rr>)
    requires Walk(a, pos, n) == Some(rs) && SameButTtl(a, b, pos, rs)
    ensures Walk(b, pos, n) == Some(rs)
    decreases n
  {
    if n != 0 {
      TailFrame(a, b, pos, n, rs);
      HeadFrame(a, b, pos, n, rs);
      WalkFrame(a, b, rs[0].End(), n - 1, rs[1..]);
    }
  }

  // The octets of the first record outside its TTL field are kept.
  lemma HeadOctets(a: bytes, b: bytes, pos: nat, n: nat, rs: seq<Rr>)
    requires n > 0 && Walk(a, pos, n) == Some(rs) && SameButTtl(a, b, pos, rs)
    ensures |rs| == n && pos < rs[0].body && In(a, rs[0]) && In(b, rs[0])
    ensures forall i :: pos <= i < rs[0].End() && !(rs[0].body + 4 <= i < rs[0].body + 8) ==> a[i] == b[i]
  {
    WalkTail(a, pos, n, rs);
    SkipNameAdvances(a, pos);
    var r := rs[0];
    forall i | pos <= i < r.End() && !(r.body + 4 <= i < r.body + 8) ensures a[i] == b[i] {
      assert !InTtl(rs, i);
    }
  }

  lemma HeadFrame(a: bytes, b: bytes, pos: nat, n: nat, rs: seq<Rr>)
    requires n > 0 && Walk(a, pos, n) == Some(rs) && SameButTtl(a, b, pos, rs)
    ensures |rs| == n && RrAt(b, pos) == RrAt(a, pos) == Some(rs[0])
    ensures Type(b, rs[0]) == Type(a, rs[0]) && Data(b, rs[0]) == Data(a, rs[0])
  {
    HeadOctets(a, b, pos, n, rs);
    RrAtLocal(a, b, pos);
    assert Data(b, rs[0]) == Data(a, rs[0]);
  }

  lemma TailFrame(a: bytes, b: bytes, pos: nat, n: nat, rs: seq<Rr>)
    requires n > 0 && Walk(a, pos, n) == Some(rs) && SameButTtl(a, b, pos, rs)
    ensures |rs| == n && Walk(a, rs[0].End(), n - 1) == Some(rs[1..])
    ensures SameButTtl(a, b, rs[0].End(), rs[1..])
  {
    WalkTail(a, pos, n, rs);
    SkipNameAdvances(a, pos);
    var r, rest := rs[0], rs[1..];
    forall i | r.End() <= i < |a| && !InTtl(rest, i) ensures a[i] == b[i] {
      assert !InTtl(rs, i) by {
        assert forall k :: 1 <= k < |rs| ==> rs[k] == rest[k - 1];
      }
    }
  }

  // The first record, and what remains to be compared behind it.
  lemma FrameStep(a: bytes, b: bytes, pos: nat, n: nat, rs: seq<Rr>) returns (r: Rr, rest: seq<Rr>)
    requires n > 0 && Walk(a, pos, n) == Some(rs) && SameButTtl(a, b, pos, rs)
    ensures RrAt(a, pos) == RrAt(b, pos) == Some(r) && Type(a, r) == Type(b, r) && Data(a, r) == Data(b, r)
    ensures Walk(a, r.End(), n - 1) == Some(rest) && SameButTtl(a, b, r.End(), rest)
  {
    HeadFrame(a, b, pos, n, rs);
    TailFrame(a, b, pos, n, rs);
    r, rest := rs[0], rs[1..];
  }

  lemma AddressesJoin(a: bytes, b: bytes, pos: nat, m: nat, r: Rr)
    requires m > 0 && RrAt(a, pos) == RrAt(b, pos) == Some(r) && Type(a, r) == Type(b, r) && Data(a, r) == Data(b, r)
    requires AddressesFrom(b, r.End(), m - 1) == AddressesFrom(a, r.End(), m - 1)
    ensures AddressesFrom(b, pos, m) == AddressesFrom(a, pos, m)
  {
    AddressesStep(a, pos, m, r);
    AddressesStep(b, pos, m, r);
  }

  // The first m records agree in place, type and data.
  ghost predicate Parallel(a: bytes, b: bytes, pos: nat, m: nat)
    decreases m
  {
    m == 0 ||
    (RrAt(a, pos).Some? && RrAt(b, pos) == RrAt(a, pos)
     && var r := RrAt(a, pos).value;
        Type(a, r) == Type(b, r) && Data(a, r) == Data(b, r) && Parallel(a, b, r.End(), m - 1))
  }

  lemma {:induction false} SameIsParallel(a: bytes, b: bytes, pos: nat, n: nat, rs: seq<Rr>, m: nat)
    requires Walk(a, pos, n) == Some(rs) && SameButTtl(a, b, pos, rs) && m <= n
    ensures Parallel(a, b, pos, m)
    decreases m
  {
    if m != 0 {
      var r, rest := FrameStep(a, b, pos, n, rs);
      SameIsParallel(a, b, r.End(), n - 1, rest, m - 1);
    }
  }

  lemma {:induction false} ParallelAddresses(a: bytes, b: bytes, pos: nat, m: nat)
    requires Parallel(a, b, pos, m)
    ensures AddressesFrom(b, pos, m) == AddressesFrom(a, pos, m)
    decreases m
  {
    if m != 0 {
      var r := RrAt(a, pos).value;
      ParallelAddresses(a, b, r.End(), m - 1);
      AddressesJoin(a, b, pos, m, r);
    }
  }

  lemma RecordSameSuffix(a: bytes, b: bytes, pos: nat)
    requires |a| == |b| && forall i :: pos <= i < |a| ==> a[i] == b[i]
    ensures RrAt(a, pos) == RrAt(b, pos)
    ensures RrAt(a, pos).Some? ==>
              var r := RrAt(a, pos).value; pos < r.body && Type(a, r) == Type(b, r) && OptOf(a, r) == OptOf(b, r)
  {
    if pos <= |a| {
      assert a[pos..] == b[pos..];
    }
    RrAtShift(a, pos, b, pos);
    if RrAt(a, pos).Some? {
      var r := RrAt(a, pos).value;
      SkipNameAdvances(a, pos);
      assert Data(a, r) == Data(b, r);
    }
  }

  lemma {:induction false} ScanSameSuffix(a: bytes, b: bytes, pos: nat, n: nat)
    requires |a| == |b| && forall i :: pos <= i < |a| ==> a[i] == b[i]
    ensures ScanOpt(a, pos, n) == ScanOpt(b, pos, n)
    decreases n
  {
    if n != 0 {
      RecordSameSuffix(a, b, pos);
      if RrAt(a, pos).Some? {
        ScanSameSuffix(a, b, RrAt(a, pos).value.End(), n - 1);
      }
    }
  }

  // Nothing before the answers and nothing after the authority records is touched.
  lemma OutsideRecords(a: bytes, b: bytes, rs: seq<Rr>)
    requires |a| >= 12 && Records(a) == Some(rs) && SameButTtl(a, b, 0, rs)
    ensures var start := AnswerStart(a).value;
            && 12 <= start <= |a| && WalkEnd(start, rs) <= |a|
            && (forall i :: 0 <= i < start ==> a[i] == b[i])
            && (forall i :: WalkEnd(start, rs) <= i < |a| ==> a[i] == b[i])
  {
    var start, n := AnswerStart(a).value, An(a) + Ns(a);
    SkipQuestionsAdvances(a, 12, Qd(a));
    WalkEndAdvances(a, start, n);
    WalkLength(a, start, n);
    forall i | 0 <= i < |a| && (i < start || WalkEnd(start, rs) <= i) ensures a[i] == b[i] {
      forall k | 0 <= k < |rs| ensures start <= rs[k].body && rs[k].End() <= WalkEnd(start, rs) {
        WalkIndex(a, start, n, k);
      }
      assert !InTtl(rs, i);
    }
  }

  // Same header, same question section, same records.
  lemma {:induction false} SectionsKept(a: bytes, b: bytes, rs: seq<Rr>)
    requires |a| >= 12 && Records(a) == Some(rs) && SameButTtl(a, b, 0, rs)
    ensures |b| == |a| && Qd(b) == Qd(a) && An(b) == An(a) && Ns(b) == Ns(a) && Ar(b) == Ar(a)
    ensures SkipQuestions(b, 12, Qd(b)) == SkipQuestions(a, 12, Qd(a)) && AnswerStart(b) == AnswerStart(a)
    ensures Records(b) == Records(a)
  {
    OutsideRecords(a, b, rs);
    FrontKept(a, b, AnswerStart(a).value);
    SameButTtlFrom(a, b, AnswerStart(a).value, rs);
    WalkFrame(a, b, AnswerStart(a).value, An(a) + Ns(a), rs);
  }

  lemma {:induction false} FrontKept(a: bytes, b: bytes, start: nat)
    requires |a| >= 12 && |b| == |a| && 12 <= start <= |a| && forall i :: 0 <= i < start ==> a[i] == b[i]
    requires AnswerStart(a) == Some(start)
    ensures Qd(b) == Qd(a) && An(b) == An(a) && Ns(b) == Ns(a) && Ar(b) == Ar(a)
    ensures SkipQuestions(b, 12, Qd(b)) == SkipQuestions(a, 12, Qd(a)) && AnswerStart(b) == AnswerStart(a)
  {
    SkipQuestionsLocal(a, b, 12, Qd(a));
  }

  lemma SameButTtlFrom(a: bytes, b: bytes, pos: nat, rs: seq<Rr>)
    requires SameButTtl(a, b, 0, rs)
    ensures SameButTtl(a, b, pos, rs)
  {}

  lemma ARecordsKept(a: bytes, b: bytes, rs: seq<Rr>)
    requires |a| >= 12 && Records(a) == Some(rs) && SameButTtl(a, b, 0, rs)
    ensures ARecords(b) == ARecords(a)
  {
    SectionsKept(a, b, rs);
    SameIsParallel(a, b, AnswerStart(a).value, An(a) + Ns(a), rs, An(a));
    ParallelAddresses(a, b, AnswerStart(a).value, An(a));
  }

  lemma OptKept(a: bytes, b: bytes, rs: seq<Rr>)
    requires |a| >= 12 && Records(a) == Some(rs) && SameButTtl(a, b, 0, rs)
    ensures FindOpt(b) == FindOpt(a)
  {
    SectionsKept(a, b, rs);
    OutsideRecords(a, b, rs);
    var end := WalkEnd(AnswerStart(a).value, rs);
    assert AdditionalStart(a) == Some(end) && AdditionalStart(b) == Some(end);
    ScanSameSuffix(a, b, end, Ar(a));
  }

  /** A successful ageing keeps the length, the record walk, the A records and the OPT. */
  lemma {:induction false} AgeingKeeps(buf: bytes, elapsed: nat, stale: bool)
    requires AgeResponse(buf, elapsed, stale).0
    ensures var out := AgeResponse(buf, elapsed, stale).1;
            && |out| == |buf| && Records(out) == Records(buf)
            && ARecords(out) == ARecords(buf) && FindOpt(out) == FindOpt(buf)
            && out[..12] == buf[..12]
  {
    AgeExact(buf, elapsed, stale);
    var out, rs := AgeResponse(buf, elapsed, stale).1, Records(buf).value;
    SectionsKept(buf, out, rs);
    ARecordsKept(buf, out, rs);
    OptKept(buf, out, rs);
    OutsideRecords(buf, out, rs);
  }

  // ---- Ageing twice -------------------------------------------------------

  lemma U32Determines(a: bytes, b: bytes, i: nat)
    requires i + 4 <= |a| && i + 4 <= |b| && U32At(a, i) == U32At(b, i)
    ensures forall k :: i <= k < i + 4 ==> a[k] == b[k]
  {
    assert U16At(a, i) == U16At(b, i) && U16At(a, i + 2) == U16At(b, i + 2);
  }

  lemma SameShown(before: nat, x: nat, y: nat, elapsed: nat, stale: bool)
    requires Shows(before, x, elapsed, stale) && Shows(before, y, elapsed, stale)
    ensures x == y
  {}

  lemma {:induction false} SameTtlField(a: bytes, b: bytes, c: bytes, r: Rr, elapsed: nat, stale: bool)
    requires In(a, r) && In(b, r) && In(c, r)
    requires Shows(Ttl(a, r), Ttl(b, r), elapsed, stale) && Shows(Ttl(a, r), Ttl(c, r), elapsed, stale)
    ensures forall i :: r.body + 4 <= i < r.body + 8 ==> b[i] == c[i]
  {
    SameShown(Ttl(a, r), Ttl(b, r), Ttl(c, r), elapsed, stale);
    U32Determines(b, c, r.body + 4);
  }

  // The aged packet is determined.
  lemma {:induction false} AgedUnique(a: bytes, b: bytes, c: bytes, rs: seq<Rr>, elapsed: nat, stale: bool)
    requires Aged(a, b, rs, elapsed, stale) && Aged(a, c, rs, elapsed, stale)
    ensures b == c
  {
    forall i | 0 <= i < |a| ensures b[i] == c[i] {
      if InTtl(rs, i) {
        var k :| 0 <= k < |rs| && rs[k].body + 4 <= i < rs[k].body + 8;
        SameTtlField(a, b, c, rs[k], elapsed, stale);
      } else {
        assert a[i] == b[i] && a[i] == c[i];
      }
    }
  }

  lemma AgedTwice(x: bytes, y: bytes, z: bytes, rs: seq<Rr>, a: nat, b: nat)
    requires Aged(x, y, rs, a, false) && Aged(y, z, rs, b, false)
    ensures Aged(x, z, rs, a + b, false)
  {
    forall k | 0 <= k < |rs| ensures Shows(Ttl(x, rs[k]), Ttl(z, rs[k]), a + b, false) {
      assert Shows(Ttl(x, rs[k]), Ttl(y, rs[k]), a, false) && Shows(Ttl(y, rs[k]), Ttl(z, rs[k]), b, false);
    }
  }

  /** Ageing by a and then by b whole seconds is ageing by a + b, octet for octet. */
  lemma AgeingAdds(buf: bytes, a: nat, b: nat)
    requires AgeResponse(buf, a, false).0
    ensures AgeResponse(AgeResponse(buf, a, false).1, b, false) == AgeResponse(buf, a + b, false)
  {
    AgeExact(buf, a, false);
    var mid, rs := AgeResponse(buf, a, false).1, Records(buf).value;
    SectionsKept(buf, mid, rs);
    AgeExact(mid, b, false);
    var got, want := AgeResponse(mid, b, false).1, AgeResponse(buf, a + b, false).1;
    AgedTwice(buf, mid, got, rs, a, b);
    AgeExact(buf, a + b, false);
    AgedUnique(buf, got, want, rs, a + b, false);
  }

  // ---- Zero addresses -----------------------------------------------------

  // The answers are the first records.
  lemma AnswersPrefix(buf: bytes, rs: seq<Rr>)
    requires |buf| >= 12 && Records(buf) == Some(rs)
    ensures |rs| == An(buf) + Ns(buf) && Answers(buf) == Some(rs[..An(buf)])
  {
    var start := AnswerStart(buf).value;
    WalkSplit(buf, start, An(buf), Ns(buf));
    WalkLength(buf, start, An(buf));
    WalkLength(buf, start, An(buf) + Ns(buf));
  }

  lemma {:induction false} RecordsFrame(a: bytes, b: bytes, pos: nat, n: nat, rs: seq<Rr>, k: nat)
    requires Walk(a, pos, n) == Some(rs) && SameButTtl(a, b, pos, rs) && k < n
    ensures |rs| == n && In(a, rs[k]) && In(b, rs[k])
    ensures Type(b, rs[k]) == Type(a, rs[k]) && Data(b, rs[k]) == Data(a, rs[k])
    decreases n
  {
    HeadFrame(a, b, pos, n, rs);
    if k > 0 {
      TailFrame(a, b, pos, n, rs);
      RecordsFrame(a, b, rs[0].End(), n - 1, rs[1..], k - 1);
    }
  }

  // Ageing neither makes nor hides a zero-address-only answer.
  lemma ZeroAddressesKept(buf: bytes, elapsed: nat, stale: bool)
    requires AgeResponse(buf, elapsed, stale).0
    ensures OnlyZeroAddresses(AgeResponse(buf, elapsed, stale).1) == OnlyZeroAddresses(buf)
  {
    AgeExact(buf, elapsed, stale);
    AgeingKeeps(buf, elapsed, stale);
    var out, rs := AgeResponse(buf, elapsed, stale).1, Records(buf).value;
    SectionsKept(buf, out, rs);
    AnswersPrefix(buf, rs);
    AnswersPrefix(out, rs);
    ZeroFrame(buf, out, rs, An(buf));
  }

  lemma ZeroFrame(a: bytes, b: bytes, rs: seq<Rr>, m: nat)
    requires |a| >= 12 && Records(a) == Some(rs) && SameButTtl(a, b, 0, rs) && m <= |rs|
    ensures SomeAddress(b, rs[..m]) == SomeAddress(a, rs[..m])
    ensures NoRealAddress(b, rs[..m]) == NoRealAddress(a, rs[..m])
  {
    var start, n := AnswerStart(a).value, An(a) + Ns(a);
    WalkLength(a, start, n);
    forall k | 0 <= k < m
      ensures IsAddress(b, rs[k]) == IsAddress(a, rs[k])
      ensures In(a, rs[k]) && In(b, rs[k]) && Data(b, rs[k]) == Data(a, rs[k])
    {
      RecordsFrame(a, b, start, n, rs, k);
    }
    assert forall k :: 0 <= k < m ==> rs[..m][k] == rs[k];
  }
}
