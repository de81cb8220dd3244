// Flushing the query history: read the file, merge a batch into it, keep the last lines
// and write it back.

module History {
  import opened Bytes
  import opened HistoryText

  // The three collections a flush works on.
  datatype Book = Book(history: map<string, seq<string>>, seen: map<string, set<string>>, order: seq<string>)

  const EMPTY_BOOK := Book(map[], map[], [])

  function ToSet(xs: seq<string>): set<string>
  {
    set x | x in xs
  }

  // ---- What the code computes ---------------------------------------------

  function LoadLine(b: Book, l: Line): Book
  {
    Book(b.history[l.domain := l.ips], b.seen[l.domain := ToSet(l.ips)], b.order + [l.domain])
  }

  function Load(ls: seq<Line>): Book
  {
    if ls == [] then EMPTY_BOOK else LoadLine(Load(ls[..|ls| - 1]), ls[|ls| - 1])
  }

  // e, then the strings of xs not met before, in the order they are first met.
  function Fresh(e: seq<string>, xs: seq<string>): seq<string>
    decreases |xs|
  {
    if xs == [] then e else Fresh(if xs[0] in e then e else e + [xs[0]], xs[1..])
  }

  function Add(b: Book, l: Line): Book
  {
    var before := if l.domain in b.history then b.history[l.domain] else [];
    var seen := if l.domain in b.seen then b.seen[l.domain] else {};
    var ips := FreshBy(before, seen, l.ips);
    Book(b.history[l.domain := ips], b.seen[l.domain := seen + ToSet(l.ips)],
         if l.domain in b.history then b.order else b.order + [l.domain])
  }

  // As Fresh, with the set of what was met kept beside the list.
  function FreshBy(e: seq<string>, seen: set<string>, xs: seq<string>): seq<string>
    decreases |xs|
  {
    if xs == [] then e
    else FreshBy(if xs[0] in seen then e else e + [xs[0]], seen + {xs[0]}, xs[1..])
  }

  function AddAll(b: Book, batch: seq<Line>): Book
  {
    if batch == [] then b else Add(AddAll(b, batch[..|batch| - 1]), batch[|batch| - 1])
  }

  function Excess(order: seq<string>, n: nat): nat
  {
    if |order| > n then |order| - n else 0
  }

  function Trim(b: Book, n: nat): Book
  {
    var gone := ToSet(b.order[..Excess(b.order, n)]);
    Book(b.history - gone, b.seen - gone, b.order[Excess(b.order, n)..])
  }

  predicate Complete(b: Book)
  {
    forall i :: 0 <= i < |b.order| ==> b.order[i] in b.history
  }

  function Output(b: Book): seq<Line>
    requires Complete(b)
  {
    seq(|b.order|, i requires 0 <= i < |b.order| => Line(b.order[i], b.history[b.order[i]]))
  }

  function Worked(content: Option<string>, batch: seq<Line>, n: nat): Book
  {
    Trim(AddAll(Load(if content.None? then [] else ParseFile(content.value)), batch), n)
  }

  // ---- The code -----------------------------------------------------------

  method MergeIps(e: seq<string>, seen: set<string>, xs: seq<string>) returns (ips: seq<string>, seen': set<string>)
    ensures ips == FreshBy(e, seen, xs) && seen' == seen + ToSet(xs)
  {
    ips, seen' := e, seen;
    assert xs[0..] == xs;
    for i := 0 to |xs|
      invariant FreshBy(ips, seen', xs[i..]) == FreshBy(e, seen, xs)
      invariant seen' == seen + ToSet(xs[..i])
    {
      assert xs[i..][1..] == xs[i + 1..] && xs[..i + 1] == xs[..i] + [xs[i]];
      if xs[i] !in seen' {
        ips := ips + [xs[i]];
      }
      seen' := seen' + {xs[i]};
    }
    assert xs[..|xs|] == xs;
  }

  method LoadFile(content: Option<string>) returns (b: Book)
    ensures b == Load(if content.None? then [] else ParseFile(content.value))
  {
    b := EMPTY_BOOK;
    if content.None? {
      return;
    }
    var ls := ParseFile(content.value);
    for i := 0 to |ls|
      invariant b == Load(ls[..i])
    {
      assert ls[..i + 1][..i] == ls[..i];
      b := LoadLine(b, ls[i]);
    }
    assert ls[..|ls|] == ls;
  }

  method AddBatch(start: Book, batch: seq<Line>) returns (b: Book)
    ensures b == AddAll(start, batch)
  {
    b := start;
    for i := 0 to |batch|
      invariant b == AddAll(start, batch[..i])
    {
      assert batch[..i + 1][..i] == batch[..i];
      var l := batch[i];
      var order := if l.domain in b.history then b.order else b.order + [l.domain];
      var ips, seen := MergeIps(if l.domain in b.history then b.history[l.domain] else [],
                                if l.domain in b.seen then b.seen[l.domain] else {}, l.ips);
      b := Book(b.history[l.domain := ips], b.seen[l.domain := seen], order);
    }
    assert batch[..|batch|] == batch;
  }

  method TrimBook(start: Book, n: nat) returns (b: Book)
    ensures b == Trim(start, n)
  {
    var excess := Excess(start.order, n);
    var history, seen := start.history, start.seen;
    for i := 0 to excess
      invariant history == start.history - ToSet(start.order[..i]) && seen == start.seen - ToSet(start.order[..i])
    {
      assert start.order[..i + 1] == start.order[..i] + [start.order[i]];
      assert ToSet(start.order[..i + 1]) == ToSet(start.order[..i]) + {start.order[i]};
      history, seen := history - {start.order[i]}, seen - {start.order[i]};
    }
    b := Book(history, seen, start.order[excess..]);
  }

  // Writing the lines; None is the panic on a domain that is not in the map.
  method WriteLines(b: Book) returns (out: Option<string>)
    ensures out == if Complete(b) then Some(PrintFile(Output(b))) else None
  {
    var text := [];
    ghost var done: seq<Line> := [];
    for i := 0 to |b.order|
      invariant forall k :: 0 <= k < i ==> b.order[k] in b.history
      invariant |done| == i && forall k :: 0 <= k < i ==> done[k] == Line(b.order[k], b.history[b.order[k]])
      invariant text == PrintFile(done)
    {
      if b.order[i] !in b.history {
        return None;
      }
      var l := Line(b.order[i], b.history[b.order[i]]);
      PrintAppend(done, l);
      text := text + PrintLine(l) + ['\n'];
      done := done + [l];
    }
    assert done == Output(b);
    out := Some(text);
  }

  lemma {:induction false} PrintAppend(ls: seq<Line>, l: Line)
    ensures PrintFile(ls + [l]) == PrintFile(ls) + PrintLine(l) + ['\n']
  {
    if ls == [] {
      assert ls + [l] == [l] && [l][1..] == [];
    } else {
      assert (ls + [l])[1..] == ls[1..] + [l];
      PrintAppend(ls[1..], l);
    }
  }

  // How writing the file goes: it is replaced, or not even opened, or truncated and then cut
  // short.
  datatype Write = Written | NotOpened | Cut(at: nat)

  datatype FlushResult = Done | NotWritten | Panicked

  function AfterWrite(file: Option<string>, text: string, w: Write): Option<string>
  {
    match w
    case Written => Some(text)
    case NotOpened => file
    case Cut(at) => Some(if at < |text| then text[..at] else text)
  }

  class HistoryBuffer {
    var queue: seq<Line>
    var dropped: nat
    var file: Option<string>
    const linesCount: nat

    constructor (file: Option<string>, linesCount: nat)
      ensures this.file == file && this.linesCount == linesCount && queue == [] && dropped == 0
    {
      this.file, this.linesCount, queue, dropped := file, linesCount, [], 0;
    }

    // One flush at a time. A domain that is missing when the lines are written is a panic; the
    // release profile aborts on panics, so it ends the process, with the old file in place.
    method Flush(w: Write) returns (r: FlushResult)
      modifies this
      ensures queue == [] && dropped == 0
      ensures old(queue) == [] ==> r == Done && file == old(file)
      ensures old(queue) != [] ==>
                var b := Worked(old(file), old(queue), linesCount);
                && r == (if !Complete(b) then Panicked else if w.Written? then Done else NotWritten)
                && file == (if Complete(b) then AfterWrite(old(file), PrintFile(Output(b)), w) else old(file))
    {
      var batch := queue;
      queue, dropped := [], 0;
      if batch == [] {
        return Done;
      }
      var b := LoadFile(file);
      b := AddBatch(b, batch);
      b := TrimBook(b, linesCount);
      var out := WriteLines(b);
      if out.None? {
        return Panicked;
      }
      file := AfterWrite(file, out.value, w);
      r := if w.Written? then Done else NotWritten;
    }
  }
}
