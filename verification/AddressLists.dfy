// The addresses read from a response and those parsed from a redirect's targets: which they
// are, and in which order.

module AddressLists {
  import opened Bytes
  import opened Message
  import opened Picking
  import R = Redirect

  /** The addresses of a redirect are its targets that parse, all of them and in order. */
  lemma {:induction false} TargetsThatParse(parse: bytes -> Option<R.Ip>, texts: seq<bytes>) returns (f: seq<nat>)
    ensures Values(Parses(parse, texts), R.ValidIps(parse, texts), f)
  {
    ValidAreSomes(parse, texts);
    f := SomesExactly(Parses(parse, texts));
  }

  function Parses(parse: bytes -> Option<R.Ip>, texts: seq<bytes>): seq<Option<R.Ip>>
  {
    seq(|texts|, i requires 0 <= i < |texts| => parse(texts[i]))
  }

  lemma {:induction false} ValidAreSomes(parse: bytes -> Option<R.Ip>, texts: seq<bytes>)
    ensures R.ValidIps(parse, texts) == Somes(Parses(parse, texts))
  {
    if texts != [] {
      ValidAreSomes(parse, texts[1..]);
      assert Parses(parse, texts) == [parse(texts[0])] + Parses(parse, texts[1..]);
      SomesFirst(parse(texts[0]), Parses(parse, texts[1..]));
    }
  }

  // The address of a record of type 1 with four octets of data.
  function AddressIn(buf: bytes, r: Rr): Option<bytes>
  {
    if In(buf, r) && U16At(buf, r.body) == 1 && r.rdlen == 4 then Some(buf[r.body + 10..r.body + 14]) else None
  }

  function AddressesIn(buf: bytes, rs: seq<Rr>): (xs: seq<Option<bytes>>)
    ensures |xs| == |rs|
  {
    seq(|rs|, k requires 0 <= k < |rs| => AddressIn(buf, rs[k]))
  }

  // rs are the records that can be read, one after the other, of the n announced from pos on.
  ghost predicate Readable(buf: bytes, pos: nat, n: nat, rs: seq<Rr>)
  {
    && |rs| <= n && Walk(buf, pos, |rs|) == Some(rs)
    && (|rs| < n ==> RrAt(buf, WalkEnd(pos, rs)).None?)
    && forall k :: 0 <= k < |rs| ==> In(buf, rs[k])
  }

  lemma {:induction false} AddressesAreSomes(buf: bytes, pos: nat, n: nat) returns (rs: seq<Rr>)
    ensures Readable(buf, pos, n, rs) && AddressesFrom(buf, pos, n) == Somes(AddressesIn(buf, rs))
    decreases n
  {
    if n == 0 || RrAt(buf, pos).None? {
      rs := [];
      assert Walk(buf, pos, 0) == Some([]) && AddressesIn(buf, []) == [];
    } else {
      var r := RrAt(buf, pos).value;
      var rest := AddressesAreSomes(buf, r.End(), n - 1);
      rs := [r] + rest;
      ReadableFirst(buf, pos, n, r, rest);
      AddressFirst(buf, r, rest, rs);
      AddressesStep(buf, pos, n, r);
    }
  }

  lemma {:induction false} AddressFirst(buf: bytes, r: Rr, rest: seq<Rr>, rs: seq<Rr>)
    requires rs == [r] + rest && In(buf, r)
    ensures Somes(AddressesIn(buf, rs)) == AddressOf(buf, r) + Somes(AddressesIn(buf, rest))
  {
    assert AddressesIn(buf, rs) == [AddressIn(buf, r)] + AddressesIn(buf, rest);
    SomesFirst(AddressIn(buf, r), AddressesIn(buf, rest));
  }

  lemma {:induction false} ReadableFirst(buf: bytes, pos: nat, n: nat, r: Rr, rest: seq<Rr>)
    requires n > 0 && RrAt(buf, pos) == Some(r) && Readable(buf, r.End(), n - 1, rest)
    ensures Readable(buf, pos, n, [r] + rest)
  {
    var rs := [r] + rest;
    assert rs[1..] == rest && Walk(buf, pos, |rs|) == Some(rs);
    assert forall k :: 1 <= k < |rs| ==> rs[k] == rest[k - 1];
    WalkEndFirst(pos, r, rest);
  }

  lemma WalkEndFirst(pos: nat, r: Rr, rest: seq<Rr>)
    ensures WalkEnd(pos, [r] + rest) == WalkEnd(r.End(), rest)
  {}

  /** The addresses read from a response are those of its answers that have type 1 and four
      octets of data, all of them and in order, up to the first answer that cannot be read. */
  lemma {:induction false} AddressesRead(buf: bytes) returns (rs: seq<Rr>, f: seq<nat>)
    requires |buf| >= 12 && AnswerStart(buf).Some?
    ensures Readable(buf, AnswerStart(buf).value, An(buf), rs)
    ensures Values(AddressesIn(buf, rs), ARecords(buf), f)
  {
    rs := AddressesAreSomes(buf, AnswerStart(buf).value, An(buf));
    f := SomesExactly(AddressesIn(buf, rs));
  }
}
