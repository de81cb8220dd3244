// The sections of a DNS message (section 4.1 of RFC 1035): header counts, walks
// over questions and resource records, and the address walks over the answers.

module Message {
  import opened Bytes
  import opened Names

  const TYPE_A: nat := 1

  function Qd(buf: bytes): nat requires |buf| >= 12 { U16At(buf, 4) }
  function An(buf: bytes): nat requires |buf| >= 12 { U16At(buf, 6) }
  function Ns(buf: bytes): nat requires |buf| >= 12 { U16At(buf, 8) }
  function Ar(buf: bytes): nat requires |buf| >= 12 { U16At(buf, 10) }

  // A resource record: where it starts, where its name ends, and its RDLENGTH.
  datatype Rr = Rr(start: nat, body: nat, rdlen: nat) {
    function End(): nat { body + 10 + rdlen }
  }

  function RrAt(buf: bytes, pos: nat): (r: Option<Rr>)
    ensures r.Some? ==> r.value.start == pos && r.value.End() <= |buf|
  {
    var name := SkipName(buf, pos);
    if name.None? || name.value + 10 > |buf| then None
    else
      var rdlen := U16At(buf, name.value + 8);
      if name.value + 10 + rdlen > |buf| then None else Some(Rr(pos, name.value, rdlen))
  }

  predicate In(buf: bytes, r: Rr)
  {
    r.End() <= |buf|
  }

  function Type(buf: bytes, r: Rr): nat requires In(buf, r) { U16At(buf, r.body) }
  function Class(buf: bytes, r: Rr): nat requires In(buf, r) { U16At(buf, r.body + 2) }
  function Ttl(buf: bytes, r: Rr): nat requires In(buf, r) { U32At(buf, r.body + 4) }
  function Data(buf: bytes, r: Rr): bytes requires In(buf, r) { buf[r.body + 10..r.End()] }

  // n records from pos on.
  function Walk(buf: bytes, pos: nat, n: nat): Option<seq<Rr>>
    decreases n
  {
    if n == 0 then Some([])
    else
      var r := RrAt(buf, pos);
      if r.None? then None
      else
        var rest := Walk(buf, r.value.End(), n - 1);
        if rest.None? then None else Some([r.value] + rest.value)
  }

  function WalkEnd(pos: nat, rs: seq<Rr>): nat
  {
    if rs == [] then pos else rs[|rs| - 1].End()
  }

  // Offset past n questions; the walk itself does not check the upper bound.
  function SkipQuestions(buf: bytes, pos: nat, n: nat): Option<nat>
    decreases n
  {
    if n == 0 then Some(pos)
    else
      var name := SkipName(buf, pos);
      if name.None? then None else SkipQuestions(buf, name.value + 4, n - 1)
  }

  // Where the answer section starts, if the question section lies in the packet.
  function AnswerStart(buf: bytes): Option<nat>
    requires |buf| >= 12
  {
    var end := SkipQuestions(buf, 12, Qd(buf));
    if end.None? || end.value > |buf| then None else end
  }

  function Answers(buf: bytes): Option<seq<Rr>>
    requires |buf| >= 12
  {
    var start := AnswerStart(buf);
    if start.None? then None else Walk(buf, start.value, An(buf))
  }

  // ---- Walks --------------------------------------------------------------

  lemma {:induction false} WalkLength(buf: bytes, pos: nat, n: nat)
    requires Walk(buf, pos, n).Some?
    ensures |Walk(buf, pos, n).value| == n
    decreases n
  {
    if n != 0 {
      WalkLength(buf, RrAt(buf, pos).value.End(), n - 1);
    }
  }

  // A walk of n + m records is a walk of n and then a walk of m.
  lemma {:induction false} WalkSplit(buf: bytes, pos: nat, n: nat, m: nat)
    ensures Walk(buf, pos, n + m).Some? ==> Walk(buf, pos, n).Some?
    ensures Walk(buf, pos, n).Some? ==>
              var mid := WalkEnd(pos, Walk(buf, pos, n).value);
              && (Walk(buf, pos, n + m).Some? <==> Walk(buf, mid, m).Some?)
              && (Walk(buf, mid, m).Some? ==>
                    Walk(buf, pos, n + m).value == Walk(buf, pos, n).value + Walk(buf, mid, m).value)
    decreases n
  {
    if n != 0 && RrAt(buf, pos).Some? {
      var r := RrAt(buf, pos).value;
      WalkSplit(buf, r.End(), n - 1, m);
      if Walk(buf, r.End(), n - 1).Some? {
        var rs := Walk(buf, r.End(), n - 1).value;
        assert WalkEnd(pos, [r] + rs) == WalkEnd(r.End(), rs);
        var rest := Walk(buf, WalkEnd(r.End(), rs), m);
        if rest.Some? {
          assert [r] + (rs + rest.value) == [r] + rs + rest.value;
        }
      }
    }
  }

  // One record more.
  lemma WalkStep(buf: bytes, pos: nat, n: nat)
    requires Walk(buf, pos, n).Some?
    ensures var rs := Walk(buf, pos, n).value;
            var r := RrAt(buf, WalkEnd(pos, rs));
            && (r.None? ==> forall m :: m > n ==> Walk(buf, pos, m).None?)
            && (r.Some? ==> Walk(buf, pos, n + 1) == Some(rs + [r.value]))
  {
    var rs := Walk(buf, pos, n).value;
    WalkSplit(buf, pos, n, 1);
    if RrAt(buf, WalkEnd(pos, rs)).None? {
      forall m: nat | m > n ensures Walk(buf, pos, m).None? {
        WalkSplit(buf, pos, n, m - n);
      }
    } else {
      var r := RrAt(buf, WalkEnd(pos, rs)).value;
      assert Walk(buf, r.End(), 0) == Some([]);
      assert Walk(buf, WalkEnd(pos, rs), 1) == Some([r] + []);
      assert [r] + [] == [r];
    }
  }

  // The records of a walk are what stands at their offsets, in order.
  lemma {:induction false} WalkIndex(buf: bytes, pos: nat, n: nat, i: nat)
    requires Walk(buf, pos, n).Some? && i < n
    ensures |Walk(buf, pos, n).value| == n
    ensures var rs := Walk(buf, pos, n).value;
            && RrAt(buf, rs[i].start) == Some(rs[i])
            && pos <= rs[i].start < rs[i].body && In(buf, rs[i])
            && rs[i].End() <= WalkEnd(pos, rs) <= |buf|
    decreases n
  {
    var r := RrAt(buf, pos).value;
    SkipNameAdvances(buf, pos);
    WalkLength(buf, r.End(), n - 1);
    if i > 0 {
      WalkIndex(buf, r.End(), n - 1, i - 1);
    } else if n > 1 {
      WalkIndex(buf, r.End(), n - 1, 0);
    }
  }

  // ---- Locality of records ------------------------------------------------

  // Finding a record reads its name and its RDLENGTH, and nothing else.
  lemma RrAtLocal(a: bytes, b: bytes, pos: nat)
    requires RrAt(a, pos).Some? && RrAt(a, pos).value.End() <= |b|
    requires var r := RrAt(a, pos).value;
             && (forall i :: pos <= i < r.body ==> a[i] == b[i])
             && a[r.body + 8] == b[r.body + 8] && a[r.body + 9] == b[r.body + 9]
    ensures RrAt(b, pos) == RrAt(a, pos)
  {
    var r := RrAt(a, pos).value;
    SkipNameAdvances(a, pos);
    assert a[pos..r.body] == b[pos..r.body];
    SkipNameLocal(a, pos, b, pos);
  }

  // A record moves with the octets from its start on.
  lemma RrAtShift(a: bytes, p: nat, b: bytes, q: nat)
    requires |a| - p == |b| - q && (p <= |a| ==> a[p..] == b[q..])
    ensures RrAt(a, p).None? <==> RrAt(b, q).None?
    ensures RrAt(a, p).Some? ==>
              var r, s := RrAt(a, p).value, RrAt(b, q).value;
              s.body - q == r.body - p && s.rdlen == r.rdlen
  {
    SkipNameShift(a, p, b, q);
    var name := SkipName(a, p);
    if name.Some? && name.value + 10 <= |a| {
      SkipNameAdvances(a, p);
      var k := name.value - p;
      assert a[p..][k + 8] == b[q..][k + 8] && a[p..][k + 9] == b[q..][k + 9];
      assert U16At(a, p + k + 8) == U16At(b, q + k + 8);
    }
  }

  lemma {:induction false} SkipQuestionsAdvances(buf: bytes, pos: nat, n: nat)
    requires SkipQuestions(buf, pos, n).Some?
    ensures pos + n <= SkipQuestions(buf, pos, n).value
    decreases n
  {
    if n != 0 {
      SkipNameAdvances(buf, pos);
      SkipQuestionsAdvances(buf, SkipName(buf, pos).value + 4, n - 1);
    }
  }

  // The question walk reads nothing at or after its end.
  // Skipping depends on the octets behind the header.
  lemma {:induction false} QuestionsSameSuffix(a: bytes, b: bytes, pos: nat, n: nat)
    requires |a| == |b| && pos >= 12 && forall i :: 12 <= i < |a| ==> a[i] == b[i]
    ensures SkipQuestions(a, pos, n) == SkipQuestions(b, pos, n)
    decreases n
  {
    if n != 0 {
      if pos <= |a| {
        assert a[pos..] == b[pos..];
      }
      SkipNameShift(a, pos, b, pos);
      if SkipName(a, pos).Some? {
        SkipNameAdvances(a, pos);
        QuestionsSameSuffix(a, b, SkipName(a, pos).value + 4, n - 1);
      }
    }
  }

  lemma {:induction false} SkipQuestionsLocal(a: bytes, b: bytes, pos: nat, n: nat)
    requires SkipQuestions(a, pos, n).Some? && SkipQuestions(a, pos, n).value <= |a|
    requires SkipQuestions(a, pos, n).value <= |b|
    requires forall i :: pos <= i < SkipQuestions(a, pos, n).value ==> a[i] == b[i]
    ensures SkipQuestions(b, pos, n) == SkipQuestions(a, pos, n)
    decreases n
  {
    if n != 0 {
      var e := SkipName(a, pos).value;
      SkipNameAdvances(a, pos);
      SkipQuestionsAdvances(a, e + 4, n - 1);
      assert a[pos..e] == b[pos..e];
      SkipNameLocal(a, pos, b, pos);
      SkipQuestionsLocal(a, b, e + 4, n - 1);
    }
  }

  // Reads one record header: the name, the ten fixed octets and the bounds.
  method ReadRr(buf: bytes, pos: nat) returns (r: Option<Rr>)
    ensures r == RrAt(buf, pos)
  {
    var name := SkipNameLoop(buf, pos);
    if name.None? || name.value + 10 > |buf| {
      return None;
    }
    var rdlen := U16At(buf, name.value + 8);
    if name.value + 10 + rdlen > |buf| {
      return None;
    }
    r := Some(Rr(pos, name.value, rdlen));
  }

  // ---- Transaction ids ----------------------------------------------------

  function WithTxid(p: bytes, a: byte, b: byte): (r: bytes)
    ensures |r| == |p| && (|p| >= 2 ==> r[0] == a && r[1] == b && r[2..] == p[2..])
  {
    if |p| >= 2 then p[0 := a][1 := b] else p
  }

  // ---- A records ----------------------------------------------------------

  // The addresses of the A records met before the walk ends or breaks off.
  function AddressesFrom(buf: bytes, pos: nat, n: nat): seq<bytes>
    decreases n
  {
    if n == 0 then []
    else
      var r := RrAt(buf, pos);
      if r.None? then []
      else
        AddressOf(buf, r.value) + AddressesFrom(buf, r.value.End(), n - 1)
  }

  function AddressOf(buf: bytes, r: Rr): seq<bytes>
    requires In(buf, r)
  {
    if Type(buf, r) == TYPE_A && r.rdlen == 4 then [Data(buf, r)] else []
  }

  function ARecords(buf: bytes): seq<bytes>
  {
    if |buf| < 12 then []
    else
      var start := SkipQuestions(buf, 12, Qd(buf));
      if start.None? then [] else AddressesFrom(buf, start.value, An(buf))
  }

  method ParseARecords(buf: bytes) returns (ips: seq<bytes>)
    ensures ips == ARecords(buf)
  {
    ips := [];
    if |buf| < 12 {
      return;
    }
    var qd, an := Qd(buf), An(buf);
    var pos: nat := 12;
    for i := 0 to qd
      invariant SkipQuestions(buf, 12, qd) == SkipQuestions(buf, pos, qd - i)
    {
      var name := SkipNameLoop(buf, pos);
      if name.None? {
        return;
      }
      pos := name.value + 4;
    }
    ips := ReadAddresses(buf, pos, an);
  }

  method ReadAddresses(buf: bytes, start: nat, an: nat) returns (ips: seq<bytes>)
    ensures ips == AddressesFrom(buf, start, an)
  {
    ips := [];
    var pos := start;
    ghost var goal, rest := AddressesFrom(buf, start, an), AddressesFrom(buf, start, an);
    for i := 0 to an
      invariant rest == AddressesFrom(buf, pos, an - i)
      invariant ips + rest == goal
    {
      var r := ReadRr(buf, pos);
      if r.None? {
        return;
      }
      var here := AddressOf(buf, r.value);
      AddressesStep(buf, pos, an - i, r.value);
      rest := AddressesFrom(buf, r.value.End(), an - i - 1);
      AppendAssoc(ips, here, rest);
      ips := ips + here;
      pos := r.value.End();
    }
  }

  lemma AddressesStep(buf: bytes, pos: nat, m: nat, r: Rr)
    requires m > 0 && RrAt(buf, pos) == Some(r)
    ensures AddressesFrom(buf, pos, m) == AddressOf(buf, r) + AddressesFrom(buf, r.End(), m - 1)
  {}

  lemma AppendAssoc(a: seq<bytes>, b: seq<bytes>, c: seq<bytes>)
    ensures a + (b + c) == a + b + c
  {}

  // ---- Zero addresses -----------------------------------------------------

  // A record of type A with four octets of data, or of type AAAA with sixteen.
  predicate IsAddress(buf: bytes, r: Rr)
  {
    In(buf, r) && ((Type(buf, r) == 1 && r.rdlen == 4) || (Type(buf, r) == 28 && r.rdlen == 16))
  }

  predicate AllZero(s: bytes)
  {
    forall i :: 0 <= i < |s| ==> s[i] == 0
  }

  ghost predicate SomeAddress(buf: bytes, rs: seq<Rr>)
  {
    exists i :: 0 <= i < |rs| && IsAddress(buf, rs[i])
  }

  ghost predicate NoRealAddress(buf: bytes, rs: seq<Rr>)
  {
    forall i :: 0 <= i < |rs| && IsAddress(buf, rs[i]) ==> AllZero(Data(buf, rs[i]))
  }

  // The answers can be walked, hold an address, and every address is 0.0.0.0 or ::.
  ghost predicate OnlyZeroAddresses(buf: bytes)
  {
    && |buf| >= 12 && Answers(buf).Some?
    && SomeAddress(buf, Answers(buf).value) && NoRealAddress(buf, Answers(buf).value)
  }

  // The question loop shared by the strict walkers: each end is checked.
  method QuestionsLoop(buf: bytes) returns (r: Option<nat>)
    requires |buf| >= 12
    ensures r == AnswerStart(buf)
  {
    var offset: nat, qd := 12, Qd(buf);
    for i := 0 to qd
      invariant offset <= |buf|
      invariant SkipQuestions(buf, 12, qd) == SkipQuestions(buf, offset, qd - i)
    {
      var name := SkipNameLoop(buf, offset);
      if name.None? {
        return None;
      }
      offset := name.value + 4;
      if offset > |buf| {
        PastTheEnd(buf, offset, qd - i - 1);
        return None;
      }
    }
    r := Some(offset);
  }

  lemma PastTheEnd(buf: bytes, pos: nat, n: nat)
    requires pos > |buf|
    ensures SkipQuestions(buf, pos, n).None? || SkipQuestions(buf, pos, n).value > |buf|
  {}

  method ResponseHasOnlyUnspecifiedAddresses(packet: bytes) returns (r: bool)
    ensures r == OnlyZeroAddresses(packet)
  {
    if |packet| < 12 {
      return false;
    }
    var start := QuestionsLoop(packet);
    if start.None? {
      return false;
    }
    var offset, an := start.value, An(packet);
    var count: nat, nonZero := 0, false;
    ghost var done: seq<Rr> := [];
    for i := 0 to an
      invariant Walk(packet, start.value, i) == Some(done) && offset == WalkEnd(start.value, done)
      invariant count > 0 <==> SomeAddress(packet, done)
      invariant !nonZero <==> NoRealAddress(packet, done)
    {
      WalkStep(packet, start.value, i);
      var rr := ReadRr(packet, offset);
      if rr.None? {
        return false;
      }
      AddressStep(packet, done, rr.value);
      if IsAddress(packet, rr.value) {
        count := count + 1;
        var zero := IsAllZero(Data(packet, rr.value));
        nonZero := nonZero || !zero;
      }
      done := done + [rr.value];
      offset := rr.value.End();
    }
    r := count > 0 && !nonZero;
  }

  lemma AddressStep(buf: bytes, rs: seq<Rr>, r: Rr)
    requires In(buf, r)
    ensures SomeAddress(buf, rs + [r]) <==> SomeAddress(buf, rs) || IsAddress(buf, r)
    ensures NoRealAddress(buf, rs + [r]) <==>
            NoRealAddress(buf, rs) && (IsAddress(buf, r) ==> AllZero(Data(buf, r)))
  {
    var all := rs + [r];
    assert all[|rs|] == r && forall i :: 0 <= i < |rs| ==> all[i] == rs[i];
    if SomeAddress(buf, rs) {
      var i :| 0 <= i < |rs| && IsAddress(buf, rs[i]);
      assert IsAddress(buf, all[i]);
    }
  }

  method IsAllZero(s: bytes) returns (r: bool)
    ensures r == AllZero(s)
  {
    for i := 0 to |s|
      invariant forall j :: 0 <= j < i ==> s[j] == 0
    {
      if s[i] != 0 {
        return false;
      }
    }
    r := true;
  }
}
