// The records of a redirect answer, octet by octet, and the name they are for.

module RedirectRecords {
  import opened Bytes
  import opened Names
  import opened Compression
  import opened Redirect

  lemma {:induction false} AnswerAt(buf: bytes, pos: nat, head: bytes, ips: seq<Ip>, k: nat)
    requires AnswersAt(buf, pos, head, ips) && k < |ips|
    ensures buf[pos + 16 * k..pos + 16 * k + 16] == AnswerRecord(head, ips[k])
    decreases k
  {
    FirstAnswer(buf, pos, head, ips);
    if k > 0 {
      AnswerAt(buf, pos + 16, head, ips[1..], k - 1);
    }
  }

  // A name without pointers uses no hops.
  lemma {:induction false} HopsUnused(fold: Fold, buf: bytes, pos: nat, h: nat, g: nat)
    requires Uncompressed(buf, pos)
    ensures Labels(fold, buf, pos, h) == Labels(fold, buf, pos, g)
    decreases |buf| - pos
  {
    if buf[pos] != 0 {
      HopsUnused(fold, buf, pos + 1 + buf[pos], h, g);
    }
  }

  // The question name reads in the response as in the query.
  lemma {:induction false} QuestionKept(fold: Fold, p: bytes, e: nat, resp: bytes)
    requires Uncompressed(p, 12) && SkipName(p, 12) == Some(e) && e <= |p| && e <= |resp|
    requires forall i :: 0 <= i < e && i !in {2, 3, 6, 7} ==> resp[i] == p[i]
    ensures Labels(fold, resp, 12, MAX_HOPS - 1) == Labels(fold, p, 12, MAX_HOPS)
  {
    UncompressedFixed(p, 12, MAX_HOPS - 1, e, {2, 3, 6, 7});
    ReadsLocal(fold, p, resp, 12, MAX_HOPS - 1, e, {2, 3, 6, 7});
    HopsUnused(fold, p, 12, MAX_HOPS - 1, MAX_HOPS);
  }

  // The record at `at` answers the question of p, whose name ends at e, with this address.
  ghost predicate AnswersWith(fold: Fold, p: bytes, e: nat, resp: bytes, at: nat, ip: Ip)
    requires e + 4 <= |p| && at + 16 <= |resp|
  {
    && Labels(fold, resp, at, MAX_HOPS) == Labels(fold, p, 12, MAX_HOPS) && SkipName(resp, at) == Some(at + 2)
    && resp[at + 2..at + 6] == p[e..e + 4] && U32At(resp, at + 6) == 60
    && U16At(resp, at + 10) == 4 && resp[at + 12..at + 16] == ip
  }

  lemma {:induction false} RecordOctets(resp: bytes, at: nat, head: bytes, ip: Ip)
    requires |head| == 4 && at + 16 <= |resp| && resp[at..at + 16] == AnswerRecord(head, ip)
    ensures resp[at..at + 2] == [0xC0, 0x0C] && resp[at + 2..at + 6] == head
    ensures U32At(resp, at + 6) == 60 && U16At(resp, at + 10) == 4 && resp[at + 12..at + 16] == ip
  {
    var r := AnswerRecord(head, ip);
    SliceSlice(resp, at, at + 16, 0, 2);
    SliceSlice(resp, at, at + 16, 2, 6);
    SliceSlice(resp, at, at + 16, 12, 16);
    assert r[0..2] == [0xC0, 0x0C] && r[2..6] == head && r[12..16] == ip;
    assert forall i :: 0 <= i < 16 ==> resp[at + i] == resp[at..at + 16][i] == r[i];
  }

  /** Every record of a redirect answer to a query with an uncompressed name reads as that very
      name, repeats the type and class of the question, lives 60 seconds and holds its address,
      in the order of the addresses. */
  lemma {:induction false} RecordsAnswerTheQuestion(fold: Fold, p: bytes, e: nat, ips: seq<Ip>, k: nat, resp: bytes)
    requires |p| >= 12 && Uncompressed(p, 12) && SkipName(p, 12) == Some(e) && e + 4 <= |p| && k < |ips|
    requires Craft(p, e, ips) == Some(resp)
    ensures e + 4 + 16 * k + 16 <= |resp| && AnswersWith(fold, p, e, resp, e + 4 + 16 * k, ips[k])
  {
    SkipNameAdvances(p, 12);
    var at := CraftedAt(p, e, ips, k, resp);
    RecordOctets(resp, at, p[e..e + 4], ips[k]);
    RecordName(fold, p, e, resp, at);
  }

  lemma {:induction false} CraftedAt(p: bytes, e: nat, ips: seq<Ip>, k: nat, resp: bytes) returns (at: nat)
    requires |p| >= 12 && 12 < e && e + 4 <= |p| && k < |ips| && Craft(p, e, ips) == Some(resp)
    ensures at == e + 4 + 16 * k && at + 16 <= |resp| && resp[at..at + 16] == AnswerRecord(p[e..e + 4], ips[k])
    ensures forall i :: 0 <= i < e && i !in {2, 3, 6, 7} ==> resp[i] == p[i]
  {
    at := e + 4 + 16 * k;
    CraftParts(p, e, ips);
    assert AnswersAt(resp, e + 4, p[e..e + 4], ips);
    AnswerAt(resp, e + 4, p[e..e + 4], ips, k);
  }

  lemma {:induction false} RecordName(fold: Fold, p: bytes, e: nat, resp: bytes, at: nat)
    requires Uncompressed(p, 12) && SkipName(p, 12) == Some(e) && e <= |p| && e <= at && at + 2 <= |resp|
    requires forall i :: 0 <= i < e && i !in {2, 3, 6, 7} ==> resp[i] == p[i]
    requires resp[at..at + 2] == [0xC0, 0x0C]
    ensures Labels(fold, resp, at, MAX_HOPS) == Labels(fold, p, 12, MAX_HOPS) && SkipName(resp, at) == Some(at + 2)
  {
    SkipNameAdvances(p, 12);
    QuestionKept(fold, p, e, resp);
    PointerParses(fold, [0xC0, 0x0C], 12, resp, at, MAX_HOPS);
    assert resp[at] == resp[at..at + 2][0];
  }
}
