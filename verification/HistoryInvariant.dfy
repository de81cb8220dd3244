// What the history file is after any series of flushes.

module HistoryInvariant {
  import opened Bytes
  import opened HistoryText
  import opened History

  predicate Unique(xs: seq<string>)
  {
    forall i, j :: 0 <= i < j < |xs| ==> xs[i] != xs[j]
  }

  function Domains(ls: seq<Line>): (ds: seq<string>)
    ensures |ds| == |ls|
  {
    seq(|ls|, i requires 0 <= i < |ls| => ls[i].domain)
  }

  // ---- First-seen order ---------------------------------------------------

  // Where x is first met in s.
  function FirstIndex(s: seq<string>, x: string): nat
  {
    if s == [] || s[0] == x then 0 else 1 + FirstIndex(s[1..], x)
  }

  // r holds each string of s once, ordered by where it is first met.
  ghost predicate FirstSeen(s: seq<string>, r: seq<string>)
  {
    && (forall x :: x in r <==> x in s)
    && forall i, j :: 0 <= i < j < |r| ==> FirstIndex(s, r[i]) < FirstIndex(s, r[j])
  }

  lemma {:induction false} FirstIndexBound(s: seq<string>, x: string)
    ensures FirstIndex(s, x) <= |s| && (x in s <==> FirstIndex(s, x) < |s|)
    ensures x in s ==> s[FirstIndex(s, x)] == x
  {
    if s != [] && s[0] != x {
      FirstIndexBound(s[1..], x);
      assert s == [s[0]] + s[1..];
    }
  }

  lemma {:induction false} FirstIndexAppend(s: seq<string>, y: string, x: string)
    ensures FirstIndex(s + [y], x) == if x in s then FirstIndex(s, x) else if x == y then |s| else |s| + 1
  {
    if s == [] {
      assert s + [y] == [y];
    } else {
      assert (s + [y])[1..] == s[1..] + [y] && s == [s[0]] + s[1..];
      FirstIndexAppend(s[1..], y, x);
    }
  }

  lemma {:induction false} FreshAppend(e: seq<string>, xs: seq<string>, y: string)
    ensures Fresh(e, xs + [y]) == (var r := Fresh(e, xs); if y in r then r else r + [y])
    decreases |xs|
  {
    if xs == [] {
      assert xs + [y] == [y] && [y][1..] == [];
    } else {
      assert (xs + [y])[1..] == xs[1..] + [y];
      FreshAppend(if xs[0] in e then e else e + [xs[0]], xs[1..], y);
    }
  }

  lemma {:induction false} FreshConcat(e: seq<string>, a: seq<string>, b: seq<string>)
    ensures Fresh(e, a + b) == Fresh(Fresh(e, a), b)
    decreases |a|
  {
    if a == [] {
      assert a + b == b;
    } else {
      assert (a + b)[1..] == a[1..] + b;
      FreshConcat(if a[0] in e then e else e + [a[0]], a[1..], b);
    }
  }

  // Starting from nothing, Fresh lists what it is given in first-seen order.
  lemma {:induction false} FreshIsFirstSeen(s: seq<string>)
    ensures FirstSeen(s, Fresh([], s)) && Unique(Fresh([], s))
    decreases |s|
  {
    if s != [] {
      var init, y := s[..|s| - 1], s[|s| - 1];
      assert s == init + [y];
      FreshIsFirstSeen(init);
      FreshAppend([], init, y);
      FirstSeenAppend(init, Fresh([], init), y);
    }
  }

  lemma FirstSeenAppend(s: seq<string>, r: seq<string>, y: string)
    requires FirstSeen(s, r) && Unique(r)
    ensures var t := if y in r then r else r + [y]; FirstSeen(s + [y], t) && Unique(t)
  {
    var t := if y in r then r else r + [y];
    forall x ensures FirstIndex(s + [y], x) == if x in s then FirstIndex(s, x) else if x == y then |s| else |s| + 1 {
      FirstIndexAppend(s, y, x);
    }
    forall x | x in s ensures FirstIndex(s, x) < |s| {
      FirstIndexBound(s, x);
    }
    assert forall i :: 0 <= i < |r| ==> r[i] in s;
  }

  lemma {:induction false} FreshOfUnique(e: seq<string>)
    requires Unique(e)
    ensures Fresh([], e) == e
  {
    if e != [] {
      var init, y := e[..|e| - 1], e[|e| - 1];
      assert e == init + [y];
      FreshOfUnique(init);
      FreshAppend([], init, y);
    }
  }

  // Adding to a list without repetitions lists both in first-seen order.
  lemma FreshOntoUnique(e: seq<string>, xs: seq<string>)
    requires Unique(e)
    ensures Fresh(e, xs) == Fresh([], e + xs)
    ensures FirstSeen(e + xs, Fresh(e, xs)) && Unique(Fresh(e, xs))
  {
    FreshOfUnique(e);
    FreshConcat([], e, xs);
    FreshIsFirstSeen(e + xs);
  }

  lemma {:induction false} FreshByIsFresh(e: seq<string>, xs: seq<string>)
    ensures FreshBy(e, ToSet(e), xs) == Fresh(e, xs)
    ensures ToSet(Fresh(e, xs)) == ToSet(e) + ToSet(xs)
    decreases |xs|
  {
    if xs != [] {
      var e' := if xs[0] in e then e else e + [xs[0]];
      assert ToSet(e) + {xs[0]} == ToSet(e');
      FreshByIsFresh(e', xs[1..]);
      assert xs == [xs[0]] + xs[1..];
    }
  }

  // ---- Books --------------------------------------------------------------

  function IpsIn(b: Book, d: string): seq<string>
  {
    if d in b.history then b.history[d] else []
  }

  // The order lists each domain once, and all collections agree.
  ghost predicate Tidy(b: Book)
  {
    && Unique(b.order) && b.history.Keys == ToSet(b.order) && b.seen.Keys == ToSet(b.order)
    && (forall d :: d in b.history ==> Unique(b.history[d]) && b.seen[d] == ToSet(b.history[d]))
  }

  // b with these addresses for d, which is last in the order if it is new.
  function Put(b: Book, d: string, ips: seq<string>): Book
  {
    Book(b.history[d := ips], b.seen[d := ToSet(ips)], if d in b.history then b.order else b.order + [d])
  }

  lemma {:induction false} PutTidy(b: Book, d: string, ips: seq<string>)
    requires Tidy(b) && Unique(ips)
    ensures Tidy(Put(b, d, ips))
  {
    var n := Put(b, d, ips);
    assert ToSet(n.order) == ToSet(b.order) + {d} by {
      assert d in b.history <==> d in b.order;
    }
    assert Unique(n.order) by {
      assert d in b.history <==> d in ToSet(b.order);
    }
    assert forall x :: x in n.history ==> x == d || x in b.history;
  }

  lemma AddIsPut(b: Book, l: Line)
    requires Tidy(b)
    ensures Add(b, l) == Put(b, l.domain, Fresh(IpsIn(b, l.domain), l.ips))
    ensures Unique(IpsIn(b, l.domain))
  {
    var e := IpsIn(b, l.domain);
    assert l.domain in b.seen <==> l.domain in b.history;
    assert ToSet([]) == {};
    assert ToSet(e) == if l.domain in b.seen then b.seen[l.domain] else {};
    FreshByIsFresh(e, l.ips);
  }

  lemma AddTidy(b: Book, l: Line)
    requires Tidy(b)
    ensures Tidy(Add(b, l)) && Add(b, l).order == Fresh(b.order, [l.domain])
  {
    AddIsPut(b, l);
    FreshOntoUnique(IpsIn(b, l.domain), l.ips);
    PutTidy(b, l.domain, Fresh(IpsIn(b, l.domain), l.ips));
    assert l.domain in b.history <==> l.domain in b.order;
    assert [l.domain][1..] == [];
  }

  // The addresses a batch brings for a domain, in order.
  function Gathered(batch: seq<Line>, d: string): seq<string>
  {
    if batch == [] then []
    else
      var last := batch[|batch| - 1];
      Gathered(batch[..|batch| - 1], d) + if last.domain == d then last.ips else []
  }

  lemma {:induction false} AddAllTidy(b: Book, batch: seq<Line>)
    requires Tidy(b)
    ensures Tidy(AddAll(b, batch)) && AddAll(b, batch).order == Fresh(b.order, Domains(batch))
    decreases |batch|
  {
    if batch != [] {
      var init, last := batch[..|batch| - 1], batch[|batch| - 1];
      AddAllTidy(b, init);
      AddTidy(AddAll(b, init), last);
      assert Domains(batch) == Domains(init) + [last.domain];
      FreshConcat(b.order, Domains(init), [last.domain]);
    }
  }

  lemma {:induction false} AddAllIps(b: Book, batch: seq<Line>, d: string)
    requires Tidy(b)
    ensures IpsIn(AddAll(b, batch), d) == Fresh(IpsIn(b, d), Gathered(batch, d))
    decreases |batch|
  {
    if batch != [] {
      var init, last := batch[..|batch| - 1], batch[|batch| - 1];
      AddAllTidy(b, init);
      AddAllIps(b, init, d);
      AddIsPut(AddAll(b, init), last);
      if last.domain == d {
        FreshConcat(IpsIn(b, d), Gathered(init, d), last.ips);
      } else {
        assert Gathered(init, d) + [] == Gathered(init, d);
      }
    }
  }

  // ---- Files --------------------------------------------------------------

  // Each domain is listed once, and no line repeats an address.
  ghost predicate Distinct(ls: seq<Line>)
  {
    Unique(Domains(ls)) && forall i :: 0 <= i < |ls| ==> Unique(ls[i].ips)
  }

  // The addresses a file lists for a domain.
  function IpsOf(ls: seq<Line>, d: string): seq<string>
  {
    if ls == [] then []
    else if ls[|ls| - 1].domain == d then ls[|ls| - 1].ips
    else IpsOf(ls[..|ls| - 1], d)
  }

  lemma {:induction false} LoadIps(ls: seq<Line>, d: string)
    ensures IpsIn(Load(ls), d) == IpsOf(ls, d)
  {
    if ls != [] {
      LoadIps(ls[..|ls| - 1], d);
    }
  }

  lemma DistinctInit(ls: seq<Line>)
    requires Distinct(ls) && ls != []
    ensures var init, last := ls[..|ls| - 1], ls[|ls| - 1];
            && Distinct(init) && Unique(last.ips)
            && Domains(ls) == Domains(init) + [last.domain] && last.domain !in Domains(init)
  {
    var init := ls[..|ls| - 1];
    assert Domains(ls) == Domains(init) + [ls[|ls| - 1].domain];
    assert forall i :: 0 <= i < |init| ==> Domains(init)[i] == Domains(ls)[i];
    assert Domains(ls)[|init|] == ls[|init|].domain;
  }

  lemma {:induction false} LoadTidy(ls: seq<Line>)
    requires Distinct(ls)
    ensures Tidy(Load(ls)) && Load(ls).order == Domains(ls)
  {
    if ls != [] {
      var init, last := ls[..|ls| - 1], ls[|ls| - 1];
      DistinctInit(ls);
      LoadTidy(init);
      assert last.domain !in Load(init).history;
      PutTidy(Load(init), last.domain, last.ips);
    }
  }

  lemma TrimTidy(b: Book, n: nat)
    requires Tidy(b)
    ensures Complete(Trim(b, n)) && Trim(b, n).order == b.order[Excess(b.order, n)..]
    ensures forall d :: d in Trim(b, n).order ==> IpsIn(Trim(b, n), d) == IpsIn(b, d)
  {
    var t, k := Trim(b, n), Excess(b.order, n);
    forall i | 0 <= i < |t.order| ensures t.order[i] in t.history {
      assert t.order[i] == b.order[k + i];
    }
  }

  // The lines a flush writes.
  ghost predicate FlushWrites(file: seq<Line>, batch: seq<Line>, n: nat, out: seq<Line>)
  {
    var all := Fresh([], Domains(file) + Domains(batch));
    && Domains(out) == all[Excess(all, n)..]
    && forall i :: 0 <= i < |out| ==>
         out[i].ips == Fresh([], IpsOf(file, out[i].domain) + Gathered(batch, out[i].domain))
  }

  /** A flush of a file without repetitions never meets a missing domain. It writes exactly
      the last n domains of the file's and then the batch's first-seen order, each with the
      addresses of the file and then the batch in first-seen order, again without repetitions. */
  lemma FlushExact(file: seq<Line>, batch: seq<Line>, n: nat)
    requires Distinct(file)
    ensures var b := Trim(AddAll(Load(file), batch), n);
            Complete(b) && |Output(b)| <= n && FlushWrites(file, batch, n, Output(b)) && Distinct(Output(b))
  {
    var b := Trim(AddAll(Load(file), batch), n);
    FlushOrder(file, batch, n);
    var out := Output(b);
    assert Domains(out) == b.order;
    forall i | 0 <= i < |out|
      ensures out[i].ips == Fresh([], IpsOf(file, out[i].domain) + Gathered(batch, out[i].domain))
      ensures Unique(out[i].ips)
    {
      LineExact(file, batch, n, i);
    }
  }

  // Some line of ls lists x for d.
  ghost predicate ListedFor(ls: seq<Line>, d: string, x: string)
  {
    exists l :: l in ls && l.domain == d && x in l.ips
  }

  lemma {:induction false} GatheredExactly(batch: seq<Line>, d: string, x: string)
    ensures x in Gathered(batch, d) <==> ListedFor(batch, d, x)
  {
    if batch != [] {
      var init, last := batch[..|batch| - 1], batch[|batch| - 1];
      GatheredExactly(init, d, x);
      assert forall l :: l in batch <==> l in init || l == last;
    }
  }

  lemma {:induction false} IpsOfExactly(ls: seq<Line>, d: string, x: string)
    requires Unique(Domains(ls))
    ensures x in IpsOf(ls, d) <==> ListedFor(ls, d, x)
  {
    if ls != [] {
      var n := |ls| - 1;
      var init, last := ls[..n], ls[n];
      assert Domains(init) == Domains(ls)[..n];
      IpsOfExactly(init, d, x);
      assert forall l :: l in ls <==> l in init || l == last;
      forall i | 0 <= i < n ensures init[i].domain != last.domain {
        assert Domains(ls)[i] != Domains(ls)[n];
      }
    }
  }

  // The last n strings of `all`, or all of them.
  ghost predicate LastOf(all: seq<string>, n: nat, kept: seq<string>)
  {
    |kept| == (if n < |all| then n else |all|) && kept == all[|all| - |kept|..]
  }

  /** What a flush writes, said without its code: of the domains of the file and then the batch, in
      the order they are first met, the last n; and for each exactly the addresses that the file or
      the batch lists for it, the file's first. */
  lemma {:induction false} FlushMeaning(file: seq<Line>, batch: seq<Line>, n: nat, out: seq<Line>) returns (all: seq<string>)
    requires Distinct(file) && FlushWrites(file, batch, n, out)
    ensures FirstSeen(Domains(file) + Domains(batch), all) && LastOf(all, n, Domains(out))
    ensures forall i :: 0 <= i < |out| ==> HasExactly(file, batch, out[i]) && FileFirst(file, out[i])
  {
    all := Fresh([], Domains(file) + Domains(batch));
    FreshIsFirstSeen(Domains(file) + Domains(batch));
    forall i | 0 <= i < |out| ensures HasExactly(file, batch, out[i]) && FileFirst(file, out[i]) {
      LineMeaning(file, batch, out[i]);
    }
  }

  // The line lists exactly the addresses that the file or the batch lists for its domain.
  ghost predicate HasExactly(file: seq<Line>, batch: seq<Line>, l: Line)
  {
    forall x :: x in l.ips <==> ListedFor(file, l.domain, x) || ListedFor(batch, l.domain, x)
  }

  // The addresses the file lists come before those it does not.
  ghost predicate FileFirst(file: seq<Line>, l: Line)
  {
    forall x, y | x in l.ips && y in l.ips && ListedFor(file, l.domain, x) && !ListedFor(file, l.domain, y) ::
      FirstIndex(l.ips, x) < FirstIndex(l.ips, y)
  }

  lemma {:induction false} LineMeaning(file: seq<Line>, batch: seq<Line>, l: Line)
    requires Distinct(file) && l.ips == Fresh([], IpsOf(file, l.domain) + Gathered(batch, l.domain))
    ensures HasExactly(file, batch, l) && FileFirst(file, l)
  {
    FreshIsFirstSeen(IpsOf(file, l.domain) + Gathered(batch, l.domain));
    forall x ensures x in l.ips <==> ListedFor(file, l.domain, x) || ListedFor(batch, l.domain, x) {
      IpsOfExactly(file, l.domain, x);
      GatheredExactly(batch, l.domain, x);
    }
    forall x, y | x in l.ips && y in l.ips && ListedFor(file, l.domain, x) && !ListedFor(file, l.domain, y)
      ensures FirstIndex(l.ips, x) < FirstIndex(l.ips, y)
    {
      FileComesFirst(file, batch, l, x, y);
    }
  }

  lemma {:induction false} FileComesFirst(file: seq<Line>, batch: seq<Line>, l: Line, x: string, y: string)
    requires Distinct(file) && l.ips == Fresh([], IpsOf(file, l.domain) + Gathered(batch, l.domain))
    requires x in l.ips && y in l.ips && ListedFor(file, l.domain, x) && !ListedFor(file, l.domain, y)
    ensures FirstIndex(l.ips, x) < FirstIndex(l.ips, y)
  {
    var a, b := IpsOf(file, l.domain), Gathered(batch, l.domain);
    FreshIsFirstSeen(a + b);
    IpsOfExactly(file, l.domain, x);
    IpsOfExactly(file, l.domain, y);
    FirstIndexBound(l.ips, x);
    FirstIndexBound(l.ips, y);
    FirstIndexFront(a, b, x, y);
    var i, j := FirstIndex(l.ips, x), FirstIndex(l.ips, y);
    assert l.ips[i] == x && l.ips[j] == y;
  }

  lemma {:induction false} FirstIndexFront(a: seq<string>, b: seq<string>, x: string, y: string)
    requires x in a && y !in a
    ensures FirstIndex(a + b, x) < |a| <= FirstIndex(a + b, y)
    decreases |a|
  {
    assert (a + b)[1..] == a[1..] + b && a == [a[0]] + a[1..];
    if a[0] != x {
      FirstIndexFront(a[1..], b, x, y);
    } else {
      FirstIndexBehind(a, b, y);
    }
  }

  lemma {:induction false} FirstIndexBehind(a: seq<string>, b: seq<string>, y: string)
    requires y !in a
    ensures |a| <= FirstIndex(a + b, y)
    decreases |a|
  {
    if a != [] {
      assert (a + b)[1..] == a[1..] + b && a == [a[0]] + a[1..];
      FirstIndexBehind(a[1..], b, y);
    }
  }

  lemma FlushOrder(file: seq<Line>, batch: seq<Line>, n: nat)
    requires Distinct(file)
    ensures var b := Trim(AddAll(Load(file), batch), n);
            var all := Fresh([], Domains(file) + Domains(batch));
            Complete(b) && b.order == all[Excess(all, n)..] && Unique(b.order)
  {
    LoadTidy(file);
    AddAllTidy(Load(file), batch);
    TrimTidy(AddAll(Load(file), batch), n);
    FreshOntoUnique(Domains(file), Domains(batch));
  }

  lemma LineExact(file: seq<Line>, batch: seq<Line>, n: nat, i: nat)
    requires Distinct(file)
    requires var b := Trim(AddAll(Load(file), batch), n); Complete(b) && i < |Output(b)|
    ensures var l := Output(Trim(AddAll(Load(file), batch), n))[i];
            l.ips == Fresh([], IpsOf(file, l.domain) + Gathered(batch, l.domain)) && Unique(l.ips)
  {
    var all := AddAll(Load(file), batch);
    var l := Output(Trim(all, n))[i];
    LoadTidy(file);
    AddAllTidy(Load(file), batch);
    TrimTidy(all, n);
    assert l.domain in Trim(all, n).order;
    AddAllIps(Load(file), batch, l.domain);
    LoadIps(file, l.domain);
    IpsUnique(Load(file), l.domain);
    FreshOntoUnique(IpsOf(file, l.domain), Gathered(batch, l.domain));
  }

  lemma IpsUnique(b: Book, d: string)
    requires Tidy(b)
    ensures Unique(IpsIn(b, d))
  {}

  // ---- Only tokens are written --------------------------------------------

  ghost predicate TokenBook(b: Book)
  {
    Tokens(b.order) && forall d :: d in b.history ==> Tokens(b.history[d])
  }

  lemma {:induction false} FreshByTokens(e: seq<string>, seen: set<string>, xs: seq<string>)
    requires Tokens(e) && Tokens(xs)
    ensures Tokens(FreshBy(e, seen, xs))
    decreases |xs|
  {
    if xs != [] {
      FreshByTokens(if xs[0] in seen then e else e + [xs[0]], seen + {xs[0]}, xs[1..]);
    }
  }

  lemma {:induction false} LoadTokens(ls: seq<Line>)
    requires Printable(ls)
    ensures TokenBook(Load(ls))
  {
    if ls != [] {
      LoadTokens(ls[..|ls| - 1]);
    }
  }

  lemma {:induction false} AddAllTokens(b: Book, batch: seq<Line>)
    requires TokenBook(b) && Printable(batch)
    ensures TokenBook(AddAll(b, batch))
    decreases |batch|
  {
    if batch != [] {
      var init, last := batch[..|batch| - 1], batch[|batch| - 1];
      AddAllTokens(b, init);
      var m := AddAll(b, init);
      FreshByTokens(IpsIn(m, last.domain), if last.domain in m.seen then m.seen[last.domain] else {}, last.ips);
    }
  }

  lemma OutputPrintable(file: seq<Line>, batch: seq<Line>, n: nat)
    requires Printable(file) && Printable(batch) && Complete(Trim(AddAll(Load(file), batch), n))
    ensures Printable(Output(Trim(AddAll(Load(file), batch), n)))
  {
    LoadTokens(file);
    AddAllTokens(Load(file), batch);
  }

  // ---- Series of flushes --------------------------------------------------

  // One flush: its batch, the limit configured when it ran, and how its write went.
  datatype Round = Round(batch: seq<Line>, limit: nat, write: Write)

  function LinesOf(file: Option<string>): seq<Line>
  {
    if file.None? then [] else ParseFile(file.value)
  }

  // The file after these flushes, one after the other, or None after a panic.
  function FileAfter(first: Option<string>, rounds: seq<Round>): Option<Option<string>>
  {
    if rounds == [] then Some(first)
    else
      var before, r := FileAfter(first, rounds[..|rounds| - 1]), rounds[|rounds| - 1];
      if before.None? || r.batch == [] then before
      else
        var b := Worked(before.value, r.batch, r.limit);
        if Complete(b) then Some(AfterWrite(before.value, PrintFile(Output(b)), r.write)) else None
  }

  // The file reads as blank-free lines without repetitions.
  ghost predicate GoodFile(file: Option<string>)
  {
    Distinct(LinesOf(file)) && Printable(LinesOf(file))
  }

  // The file holds what flushing r into the file before it writes, and reads back as that.
  ghost predicate Flushed(before: Option<string>, r: Round, after: Option<string>)
  {
    && after.Some? && after.value == PrintFile(LinesOf(after)) && |LinesOf(after)| <= r.limit
    && FlushWrites(LinesOf(before), r.batch, r.limit, LinesOf(after))
  }

  lemma FlushKeepsFile(file: Option<string>, r: Round)
    requires GoodFile(file) && Printable(r.batch) && r.batch != []
    ensures var b := Worked(file, r.batch, r.limit);
            Complete(b) && GoodFile(Some(PrintFile(Output(b)))) && Flushed(file, r, Some(PrintFile(Output(b))))
  {
    FlushExact(LinesOf(file), r.batch, r.limit);
    OutputPrintable(LinesOf(file), r.batch, r.limit);
    FileRoundTrip(Output(Worked(file, r.batch, r.limit)));
  }

  lemma {:induction false} LastFlush(first: Option<string>, rounds: seq<Round>, before: Option<string>, r: Round)
    requires rounds != [] && FileAfter(first, rounds[..|rounds| - 1]) == Some(before) && rounds[|rounds| - 1] == r
    requires r.batch != [] && Complete(Worked(before, r.batch, r.limit))
    ensures FileAfter(first, rounds)
         == Some(AfterWrite(before, PrintFile(Output(Worked(before, r.batch, r.limit))), r.write))
  {}

  /** From an absent file, or any that reads as blank-free lines without repetitions, no series
      of flushes ever panics, whatever limits they run with, as long as no write is cut short.
      Every flush whose batch is written writes exactly what it should, within its limit, and
      the file reads back as written; the others leave the file. */
  lemma {:induction false} FlushesKeepFile(first: Option<string>, rounds: seq<Round>)
    requires GoodFile(first)
    requires forall i :: 0 <= i < |rounds| ==> Printable(rounds[i].batch) && !rounds[i].write.Cut?
    ensures FileAfter(first, rounds).Some? && GoodFile(FileAfter(first, rounds).value)
    ensures rounds != [] ==>
              var init, last := rounds[..|rounds| - 1], rounds[|rounds| - 1];
              FileAfter(first, init).Some? &&
              if last.batch == [] || last.write.NotOpened? then FileAfter(first, rounds) == FileAfter(first, init)
              else Flushed(FileAfter(first, init).value, last, FileAfter(first, rounds).value)
  {
    if rounds != [] {
      var init, last := rounds[..|rounds| - 1], rounds[|rounds| - 1];
      FlushesKeepFile(first, init);
      var before := FileAfter(first, init).value;
      if last.batch != [] {
        FlushKeepsFile(before, last);
        LastFlush(first, rounds, before, last);
      }
    }
  }

  // ---- Files that repeat a domain -----------------------------------------

  lemma {:induction false} LoadOrder(ls: seq<Line>)
    ensures Load(ls).history.Keys == ToSet(Load(ls).order) && Load(ls).order == Domains(ls)
  {
    if ls != [] {
      var init, d := ls[..|ls| - 1], ls[|ls| - 1].domain;
      LoadOrder(init);
      assert ToSet(Load(init).order + [d]) == ToSet(Load(init).order) + {d};
      assert Domains(ls) == Domains(init) + [d];
    }
  }

  lemma {:induction false} AddAllOrder(b: Book, batch: seq<Line>)
    requires b.history.Keys == ToSet(b.order)
    ensures AddAll(b, batch).history.Keys == ToSet(AddAll(b, batch).order)
    ensures AddAll(b, batch).order == Fresh(b.order, Domains(batch))
    decreases |batch|
  {
    if batch != [] {
      var init, d := batch[..|batch| - 1], batch[|batch| - 1].domain;
      var m := AddAll(b, init);
      AddAllOrder(b, init);
      assert ToSet(m.order + [d]) == ToSet(m.order) + {d};
      assert Domains(batch) == Domains(init) + [d];
      FreshAppend(b.order, Domains(init), d);
      assert d in m.history <==> d in m.order;
    }
  }

  lemma TrimComplete(b: Book, n: nat)
    requires b.history.Keys == ToSet(b.order)
    ensures Complete(Trim(b, n)) <==>
            forall i, j :: 0 <= i < Excess(b.order, n) <= j < |b.order| ==> b.order[i] != b.order[j]
  {
    var t, k := Trim(b, n), Excess(b.order, n);
    assert forall j :: k <= j < |b.order| ==> t.order[j - k] == b.order[j] && b.order[j] in b.history;
    if Complete(t) {
      forall i, j | 0 <= i < k <= j < |b.order| ensures b.order[i] != b.order[j] {
        assert t.order[j - k] in t.history;
        assert b.order[..k][i] == b.order[i];
      }
    }
  }

  /** For any file, also one that repeats domains, a flush fails exactly when a domain occurs
      both among the lines dropped and among the lines kept. */
  lemma FlushFailsExactly(content: Option<string>, batch: seq<Line>, n: nat)
    ensures var order := Fresh(Domains(LinesOf(content)), Domains(batch));
            Complete(Worked(content, batch, n)) <==>
            forall i, j :: 0 <= i < Excess(order, n) <= j < |order| ==> order[i] != order[j]
  {
    var file := LinesOf(content);
    LoadOrder(file);
    AddAllOrder(Load(file), batch);
    TrimComplete(AddAll(Load(file), batch), n);
  }

  // A batch with a space in a domain, and the lines its file is read back as.
  const SPACED := [Line("a", ["1"]), Line("b", ["1"]), Line("a c", ["1"])]
  const REREAD := [Line("a", ["1"]), Line("b", ["1"]), Line("a", ["c", "1"])]

  lemma SpacedFile()
    ensures PrintFile(SPACED) == PrintFile(REREAD)
  {
    assert SPACED[1..] == [Line("b", ["1"]), Line("a c", ["1"])];
    assert REREAD[1..] == [Line("b", ["1"]), Line("a", ["c", "1"])];
    assert SPACED[1..][1..] == [Line("a c", ["1"])] && REREAD[1..][1..] == [Line("a", ["c", "1"])];
    assert ["c", "1"][1..] == ["1"];
    assert PrintLine(Line("a c", ["1"])) == PrintLine(Line("a", ["c", "1"]));
    assert PrintFile(SPACED[1..][1..]) == PrintFile(REREAD[1..][1..]);
  }

  lemma {:induction false} GatheredDistinct(ls: seq<Line>, i: nat)
    requires Distinct(ls) && i < |ls|
    ensures Gathered(ls, ls[i].domain) == ls[i].ips
  {
    DistinctInit(ls);
    var init, last := ls[..|ls| - 1], ls[|ls| - 1];
    if i == |init| {
      GatheredNone(init, last.domain);
    } else {
      assert Domains(init)[i] == ls[i].domain;
      GatheredDistinct(init, i);
      assert ls[i].ips + [] == ls[i].ips;
    }
  }

  lemma {:induction false} GatheredNone(ls: seq<Line>, d: string)
    requires d !in Domains(ls)
    ensures Gathered(ls, d) == []
  {
    if ls != [] {
      var init, last := ls[..|ls| - 1], ls[|ls| - 1];
      assert Domains(ls) == Domains(init) + [last.domain];
      GatheredNone(init, d);
    }
  }

  lemma WritesSame(batch: seq<Line>, n: nat, out: seq<Line>)
    requires Distinct(batch) && |batch| <= n && FlushWrites([], batch, n, out)
    ensures out == batch
  {
    assert Domains([]) + Domains(batch) == Domains(batch);
    FreshOfUnique(Domains(batch));
    forall i | 0 <= i < |batch| ensures out[i] == batch[i] {
      assert Domains(out)[i] == Domains(batch)[i];
      GatheredDistinct(batch, i);
      assert [] + batch[i].ips == batch[i].ips;
      FreshOfUnique(batch[i].ips);
    }
  }

  // The first flush writes a short batch without repetitions as it is.
  lemma {:induction false} FirstFlush(batch: seq<Line>, n: nat)
    requires Distinct(batch) && batch != [] && |batch| <= n
    ensures FileAfter(None, [Round(batch, n, Written)]) == Some(Some(PrintFile(batch)))
  {
    FlushExact([], batch, n);
    WritesSame(batch, n, Output(Worked(None, batch, n)));
    assert [Round(batch, n, Written)][..0] == [];
  }

  lemma NextFails(rounds: seq<Round>, before: string, r: Round)
    requires FileAfter(None, rounds) == Some(Some(before))
    requires r.batch != [] && !Complete(Worked(Some(before), r.batch, r.limit))
    ensures FileAfter(None, rounds + [r]).None?
  {
    assert (rounds + [r])[..|rounds|] == rounds;
  }

  lemma FailsAt(content: string, batch: seq<Line>, n: nat, order: seq<string>, i: nat, j: nat)
    requires order == Fresh(Domains(ParseFile(content)), Domains(batch))
    requires i < Excess(order, n) <= j < |order| && order[i] == order[j]
    ensures !Complete(Worked(Some(content), batch, n))
  {
    FlushFailsExactly(Some(content), batch, n);
    assert LinesOf(Some(content)) == ParseFile(content);
  }

  // A file that lists a twice with b between, at the limit of three lines.
  lemma RepeatFails(content: string, batch: seq<Line>)
    requires Domains(ParseFile(content)) == ["a", "b", "a"] && Domains(batch) == ["d"]
    ensures !Complete(Worked(Some(content), batch, 3))
  {
    FreshAppend(["a", "b", "a"], [], "d");
    assert [] + ["d"] == ["d"];
    FailsAt(content, batch, 3, ["a", "b", "a"] + ["d"], 0, 2);
  }

  lemma {:induction false} RereadDomains()
    ensures Domains(ParseFile(PrintFile(REREAD))) == ["a", "b", "a"]
  {
    FileRoundTrip(REREAD);
    assert Domains(REREAD) == ["a", "b", "a"];
  }

  /** Printable batches are needed: a domain with a space in it is read back as another
      domain, and a later flush of an ordinary batch fails. */
  lemma {:induction false} SpacedDomainFails()
    ensures FileAfter(None, [Round(SPACED, 3, Written)] + [Round([Line("d", ["1"])], 3, Written)]).None?
  {
    assert Distinct(SPACED) by {
      assert Domains(SPACED) == ["a", "b", "a c"];
    }
    FirstFlush(SPACED, 3);
    SpacedFile();
    RereadDomains();
    assert Domains([Line("d", ["1"])]) == ["d"];
    RepeatFails(PrintFile(REREAD), [Line("d", ["1"])]);
    NextFails([Round(SPACED, 3, Written)], PrintFile(REREAD), Round([Line("d", ["1"])], 3, Written));
  }
}
