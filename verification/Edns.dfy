// EDNS: locating the OPT pseudo-record (section 6.1.2 of RFC 6891), its options,
// and writing the client-subnet option (section 6 of RFC 7871) into a query.

module Edns {
  import opened Bytes
  import opened Keys
  import opened Names
  import opened Message

  const TYPE_OPT: nat := 41
  const CODE_ECS: nat := 8

  datatype EdnsOpt = EdnsOpt(start: nat, end: nat, size: nat, rcode: byte, version: byte, flags: nat, options: bytes)

  function OptOf(buf: bytes, r: Rr): EdnsOpt
    requires In(buf, r)
  {
    EdnsOpt(r.start, r.End(), Class(buf, r), buf[r.body + 4], buf[r.body + 5], U16At(buf, r.body + 6), Data(buf, r))
  }

  // The first OPT among n records; a record that cannot be read ends the scan.
  function ScanOpt(buf: bytes, pos: nat, n: nat): Option<EdnsOpt>
    decreases n
  {
    if n == 0 then None
    else
      var r := RrAt(buf, pos);
      if r.None? then None
      else if Type(buf, r.value) == TYPE_OPT then Some(OptOf(buf, r.value))
      else ScanOpt(buf, r.value.End(), n - 1)
  }

  function AdditionalStart(buf: bytes): Option<nat>
    requires |buf| >= 12
  {
    var questions := SkipQuestions(buf, 12, Qd(buf));
    if questions.None? then None
    else
      var rs := Walk(buf, questions.value, An(buf) + Ns(buf));
      if rs.None? then None else Some(WalkEnd(questions.value, rs.value))
  }

  function FindOpt(buf: bytes): Option<EdnsOpt>
  {
    if |buf| < 12 then None
    else
      var start := AdditionalStart(buf);
      if start.None? then None else ScanOpt(buf, start.value, Ar(buf))
  }

  method FindOptRecord(buf: bytes) returns (r: Option<EdnsOpt>)
    ensures r == FindOpt(buf)
  {
    if |buf| < 12 {
      return None;
    }
    var start := FindAdditional(buf);
    if start.None? {
      return None;
    }
    var pos, ar := start.value, Ar(buf);
    for i := 0 to ar
      invariant ScanOpt(buf, pos, ar - i) == ScanOpt(buf, start.value, ar)
    {
      var rr := ReadRr(buf, pos);
      if rr.None? {
        return None;
      }
      if Type(buf, rr.value) == TYPE_OPT {
        return Some(OptOf(buf, rr.value));
      }
      pos := rr.value.End();
    }
    r := None;
  }

  method FindAdditional(buf: bytes) returns (r: Option<nat>)
    requires |buf| >= 12
    ensures r == AdditionalStart(buf)
  {
    var pos: nat := 12;
    var qd, n := Qd(buf), An(buf) + Ns(buf);
    for i := 0 to qd
      invariant SkipQuestions(buf, pos, qd - i) == SkipQuestions(buf, 12, qd)
    {
      var name := SkipNameLoop(buf, pos);
      if name.None? {
        return None;
      }
      pos := name.value + 4;
    }
    ghost var first, done: seq<Rr> := pos, [];
    for i := 0 to n
      invariant Walk(buf, first, i) == Some(done) && pos == WalkEnd(first, done)
    {
      WalkStep(buf, first, i);
      var rr := ReadRr(buf, pos);
      if rr.None? {
        return None;
      }
      done := done + [rr.value];
      pos := rr.value.End();
    }
    r := Some(pos);
  }

  // ---- Options ------------------------------------------------------------

  datatype EdnsOption = EdnsOption(code: nat, data: bytes)

  predicate Sized(x: EdnsOption)
  {
    x.code < 0x1_0000 && |x.data| < 0x1_0000
  }

  predicate AllSized(xs: seq<EdnsOption>)
  {
    forall i :: 0 <= i < |xs| ==> Sized(xs[i])
  }

  // The options up to the first one that does not fit; the rest is ignored.
  function ParseOptions(o: bytes): (xs: seq<EdnsOption>)
    ensures AllSized(xs)
    decreases |o|
  {
    if |o| < 4 || 4 + U16At(o, 2) > |o| then []
    else
      var n := U16At(o, 2);
      [EdnsOption(U16At(o, 0), o[4..4 + n])] + ParseOptions(o[4 + n..])
  }

  method ParseOptionsLoop(o: bytes) returns (xs: seq<EdnsOption>)
    ensures xs == ParseOptions(o)
  {
    xs := [];
    var pos: nat := 0;
    ghost var goal := ParseOptions(o);
    assert o[0..] == o;
    while pos + 4 <= |o|
      invariant pos <= |o|
      invariant xs + ParseOptions(o[pos..]) == goal
    {
      var code, n := U16At(o, pos), U16At(o, pos + 2);
      OptionAt(o, pos);
      if pos + 4 + n > |o| {
        return;
      }
      var x := EdnsOption(code, o[pos + 4..pos + 4 + n]);
      OptionsAssoc(xs, x, ParseOptions(o[pos + 4 + n..]));
      xs := xs + [x];
      pos := pos + 4 + n;
    }
  }

  lemma OptionsAssoc(xs: seq<EdnsOption>, x: EdnsOption, rest: seq<EdnsOption>)
    ensures xs + ([x] + rest) == xs + [x] + rest
  {}

  // The option at pos, then the options after it.
  lemma OptionAt(o: bytes, pos: nat)
    requires pos + 4 <= |o|
    ensures var end := pos + 4 + U16At(o, pos + 2);
            if end > |o| then ParseOptions(o[pos..]) == []
            else ParseOptions(o[pos..]) == [EdnsOption(U16At(o, pos), o[pos + 4..end])] + ParseOptions(o[end..])
  {
    var rest, n := o[pos..], U16At(o, pos + 2);
    assert rest[0] == o[pos] && rest[1] == o[pos + 1] && rest[2] == o[pos + 2] && rest[3] == o[pos + 3];
    assert U16At(rest, 0) == U16At(o, pos) && U16At(rest, 2) == n;
    if pos + 4 + n <= |o| {
      assert rest[4..4 + n] == o[pos + 4..pos + 4 + n] && rest[4 + n..] == o[pos + 4 + n..];
    }
  }

  function EncodeOption(x: EdnsOption): (b: bytes)
    requires Sized(x)
    ensures |b| == 4 + |x.data|
  {
    Be16(x.code) + Be16(|x.data|) + x.data
  }

  function EncodeOptions(xs: seq<EdnsOption>): bytes
    requires AllSized(xs)
  {
    if xs == [] then [] else EncodeOption(xs[0]) + EncodeOptions(xs[1..])
  }

  // No option fits: fewer than four octets, or fewer than the length in octets 2 and 3 says.
  predicate NoOption(o: bytes)
  {
    |o| < 4 || |o| < 4 + 256 * o[2] as int + o[3]
  }

  lemma {:induction false} OptionInFront(o: bytes, x: EdnsOption, rest: bytes)
    requires Sized(x) && o == EncodeOption(x) + rest
    ensures ParseOptions(o) == [x] + ParseOptions(rest)
  {
    var n := |x.data|;
    assert o == (Be16(x.code) + Be16(n)) + x.data + rest;
    assert o[0] == Be16(x.code)[0] && o[1] == Be16(x.code)[1] && o[2] == Be16(n)[0] && o[3] == Be16(n)[1];
    assert U16At(o, 0) == x.code && U16At(o, 2) == n;
    assert o[4..4 + n] == x.data && o[4 + n..] == rest;
  }

  // Parsing undoes encoding, whatever stands behind the options, if no further one fits.
  lemma {:induction false} ParseEncodedThen(xs: seq<EdnsOption>, junk: bytes)
    requires AllSized(xs) && NoOption(junk)
    ensures ParseOptions(EncodeOptions(xs) + junk) == xs
    decreases |xs|
  {
    if xs == [] {
      assert EncodeOptions(xs) + junk == junk;
    } else {
      var rest := EncodeOptions(xs[1..]);
      ParseEncodedThen(xs[1..], junk);
      assert (EncodeOption(xs[0]) + rest) + junk == EncodeOption(xs[0]) + (rest + junk);
      OptionInFront(EncodeOptions(xs) + junk, xs[0], rest + junk);
    }
  }

  lemma ParseEncoded(xs: seq<EdnsOption>)
    requires AllSized(xs)
    ensures ParseOptions(EncodeOptions(xs)) == xs
  {
    ParseEncodedThen(xs, []);
    assert EncodeOptions(xs) + [] == EncodeOptions(xs);
  }

  /** Octets parse to these options exactly when they are the options, one after the other, and
      then octets into which no option fits. */
  lemma {:induction false} ParsedExactly(o: bytes, xs: seq<EdnsOption>)
    requires AllSized(xs)
    ensures ParseOptions(o) == xs <==> exists junk :: NoOption(junk) && o == EncodeOptions(xs) + junk
  {
    if ParseOptions(o) == xs {
      var junk := ParsedAll(o);
    }
    if junk :| NoOption(junk) && o == EncodeOptions(xs) + junk {
      ParseEncodedThen(xs, junk);
    }
  }

  lemma {:induction false} ParsedAll(o: bytes) returns (junk: bytes)
    ensures NoOption(junk) && o == EncodeOptions(ParseOptions(o)) + junk
    decreases |o|
  {
    junk := o;
    if !NoOption(o) {
      var n := U16At(o, 2);
      junk := ParsedAll(o[4 + n..]);
      var xs := ParseOptions(o);
      assert xs[0] == EdnsOption(U16At(o, 0), o[4..4 + n]) && xs[1..] == ParseOptions(o[4 + n..]);
      FirstOption(o, xs[0], n);
      assert EncodeOption(xs[0]) + (EncodeOptions(xs[1..]) + junk) == EncodeOptions(xs) + junk;
    }
  }

  lemma {:induction false} FirstOption(o: bytes, x: EdnsOption, n: nat)
    requires |o| >= 4 && n == U16At(o, 2) && 4 + n <= |o| && x == EdnsOption(U16At(o, 0), o[4..4 + n])
    ensures o == EncodeOption(x) + o[4 + n..]
  {
    Be16OfU16(o, 0);
    Be16OfU16(o, 2);
    assert o == o[0..2] + o[2..4] + o[4..4 + n] + o[4 + n..];
  }

  // What was parsed never takes more room than where it came from.
  lemma {:induction false} EncodedNoLonger(o: bytes)
    ensures |EncodeOptions(ParseOptions(o))| <= |o|
    decreases |o|
  {
    if !(|o| < 4 || 4 + U16At(o, 2) > |o|) {
      var rest := o[4 + U16At(o, 2)..];
      EncodedNoLonger(rest);
      assert ParseOptions(o)[1..] == ParseOptions(rest);
    }
  }

  function Without(xs: seq<EdnsOption>, code: nat): (ys: seq<EdnsOption>)
    ensures AllSized(xs) ==> AllSized(ys)
  {
    if xs == [] then []
    else if xs[0].code == code then Without(xs[1..], code)
    else [xs[0]] + Without(xs[1..], code)
  }

  // Removing twice is removing once, also when a removed option was added at the end.
  lemma {:induction false} WithoutAgain(xs: seq<EdnsOption>, x: EdnsOption)
    ensures Without(Without(xs, x.code) + [x], x.code) == Without(xs, x.code)
    decreases |xs|
  {
    var ys := Without(xs, x.code);
    if xs == [] {
      assert ys + [x] == [x] && [x][1..] == [];
      assert Without([x], x.code) == Without([x][1..], x.code);
    } else {
      WithoutAgain(xs[1..], x);
      if xs[0].code != x.code {
        assert (ys + [x])[1..] == Without(xs[1..], x.code) + [x];
        assert (ys + [x])[0] == xs[0];
      }
    }
  }

  // ---- Writing the client subnet ------------------------------------------

  function Ecs(subnet: Subnet): (x: EdnsOption)
    ensures Sized(x) && x.code == CODE_ECS && |x.data| == 7
  {
    EdnsOption(CODE_ECS, [0, 1, 24, 0] + subnet)
  }

  function OptHeader(opt: EdnsOpt, rdlen: nat): (b: bytes)
    requires opt.size < 0x1_0000 && opt.flags < 0x1_0000 && rdlen < 0x1_0000
    ensures |b| == 11
  {
    [0] + Be16(TYPE_OPT) + Be16(opt.size) + [opt.rcode, opt.version] + Be16(opt.flags) + Be16(rdlen)
  }

  // The rewritten record; RDLENGTH is the option length truncated to 16 bits.
  function OptBytes(opt: EdnsOpt, options: bytes): (b: bytes)
    requires opt.size < 0x1_0000 && opt.flags < 0x1_0000
    ensures |b| == 11 + |options|
  {
    OptHeader(opt, |options| % 0x1_0000) + options
  }

  // The record used when the packet has no OPT that could be found.
  function Synthetic(payload: bytes): EdnsOpt
  {
    EdnsOpt(|payload|, |payload|, 4096, 0, 0, 0, [])
  }

  predicate Fits(payload: bytes, opt: EdnsOpt)
  {
    opt.size < 0x1_0000 && opt.flags < 0x1_0000 && opt.start <= opt.end <= |payload|
  }

  function Spliced(payload: bytes, opt: EdnsOpt, options: bytes): bytes
    requires Fits(payload, opt)
  {
    payload[..opt.start] + OptBytes(opt, options) + payload[opt.end..]
  }

  // ARCOUNT goes up by one, modulo 2^16.
  function BumpArcount(out: bytes): (r: bytes)
    requires |out| >= 12
    ensures |r| == |out| && Ar(r) == (Ar(out) + 1) % 0x1_0000
    ensures forall i :: 0 <= i < |out| && i != 10 && i != 11 ==> r[i] == out[i]
  {
    var n := Be16((Ar(out) + 1) % 0x1_0000);
    out[10 := n[0]][11 := n[1]]
  }

  // The options written for an OPT that carried `options`.
  function NewOptions(options: bytes, subnet: Subnet): (xs: seq<EdnsOption>)
    ensures AllSized(xs)
  {
    Without(ParseOptions(options), CODE_ECS) + [Ecs(subnet)]
  }

  lemma {:induction false} ScanFits(buf: bytes, pos: nat, n: nat)
    requires ScanOpt(buf, pos, n).Some?
    ensures Fits(buf, ScanOpt(buf, pos, n).value)
    ensures pos <= ScanOpt(buf, pos, n).value.start < ScanOpt(buf, pos, n).value.end
    decreases n
  {
    var r := RrAt(buf, pos).value;
    SkipNameAdvances(buf, pos);
    if Type(buf, r) != TYPE_OPT {
      ScanFits(buf, r.End(), n - 1);
    }
  }

  lemma WalkEndAdvances(buf: bytes, pos: nat, n: nat)
    requires Walk(buf, pos, n).Some?
    ensures pos <= WalkEnd(pos, Walk(buf, pos, n).value)
    ensures n > 0 ==> pos < WalkEnd(pos, Walk(buf, pos, n).value) <= |buf|
  {
    WalkLength(buf, pos, n);
    if n > 0 {
      WalkIndex(buf, pos, n, n - 1);
    }
  }

  lemma FoundFits(buf: bytes)
    requires FindOpt(buf).Some?
    ensures Fits(buf, FindOpt(buf).value)
    ensures 12 <= FindOpt(buf).value.start < FindOpt(buf).value.end
    ensures AdditionalStart(buf).value <= FindOpt(buf).value.start
  {
    ScanFits(buf, AdditionalStart(buf).value, Ar(buf));
    SkipQuestionsAdvances(buf, 12, Qd(buf));
    WalkEndAdvances(buf, SkipQuestions(buf, 12, Qd(buf)).value, An(buf) + Ns(buf));
  }

  function SetEcs(payload: bytes, subnet: Option<Subnet>): bytes
  {
    if subnet.None? then payload
    else
      var found := FindOpt(payload);
      if found.Some? then
        FoundFits(payload);
        Spliced(payload, found.value, EncodeOptions(NewOptions(found.value.options, subnet.value)))
      else
        BumpArcount(Spliced(payload, Synthetic(payload), EncodeOptions([Ecs(subnet.value)])))
  }
}
