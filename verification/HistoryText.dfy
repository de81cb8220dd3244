// The text of the query history file: one line per domain, the domain and then the
// addresses seen for it, separated by blanks.

module HistoryText {

  datatype Line = Line(domain: string, ips: seq<string>)

  // ---- Text ---------------------------------------------------------------

  // The characters with the Unicode property White_Space.
  predicate IsSpace(c: char)
  {
    || '\t' <= c <= '\r' || c == ' ' || c == '\U{0085}' || c == '\U{00A0}' || c == '\U{1680}'
    || '\U{2000}' <= c <= '\U{200A}' || c == '\U{2028}' || c == '\U{2029}' || c == '\U{202F}'
    || c == '\U{205F}' || c == '\U{3000}'
  }

  // Length of the leading run of characters that are not white space.
  function WordLength(s: string): (n: nat)
    ensures n <= |s|
  {
    if s == [] || IsSpace(s[0]) then 0 else 1 + WordLength(s[1..])
  }

  function Words(s: string): seq<string>
    decreases |s|
  {
    if s == [] then []
    else if IsSpace(s[0]) then Words(s[1..])
    else
      var n := WordLength(s);
      [s[..n]] + Words(s[n..])
  }

  // Length of the first line, without its end.
  function LineLength(s: string): (n: nat)
    ensures n <= |s| && (n < |s| ==> s[n] == '\n')
  {
    if s == [] || s[0] == '\n' then 0 else 1 + LineLength(s[1..])
  }

  function Lines(s: string): seq<string>
    decreases |s|
  {
    if s == [] then []
    else
      var n := LineLength(s);
      [s[..n]] + Lines(if n < |s| then s[n + 1..] else [])
  }

  function ParseLines(ls: seq<string>): seq<Line>
  {
    if ls == [] then []
    else
      var ws := Words(ls[0]);
      (if ws == [] then [] else [Line(ws[0], ws[1..])]) + ParseLines(ls[1..])
  }

  function ParseFile(content: string): seq<Line>
  {
    ParseLines(Lines(content))
  }

  function PrintIps(ips: seq<string>): string
  {
    if ips == [] then [] else [' '] + ips[0] + PrintIps(ips[1..])
  }

  function PrintLine(l: Line): string
  {
    l.domain + PrintIps(l.ips)
  }

  function PrintFile(ls: seq<Line>): string
  {
    if ls == [] then [] else PrintLine(ls[0]) + ['\n'] + PrintFile(ls[1..])
  }

  // ---- Reading back what was written --------------------------------------

  predicate Token(s: string)
  {
    s != [] && forall i :: 0 <= i < |s| ==> !IsSpace(s[i])
  }

  predicate Tokens(ts: seq<string>)
  {
    forall i :: 0 <= i < |ts| ==> Token(ts[i])
  }

  predicate Printable(ls: seq<Line>)
  {
    forall i :: 0 <= i < |ls| ==> Token(ls[i].domain) && Tokens(ls[i].ips)
  }

  lemma {:induction false} WordAhead(w: string, rest: string)
    requires (forall i :: 0 <= i < |w| ==> !IsSpace(w[i])) && (rest == [] || IsSpace(rest[0]))
    ensures WordLength(w + rest) == |w|
  {
    if w == [] {
      assert w + rest == rest;
    } else {
      assert (w + rest)[1..] == w[1..] + rest;
      WordAhead(w[1..], rest);
    }
  }

  lemma FirstWord(w: string, rest: string)
    requires Token(w) && (rest == [] || IsSpace(rest[0]))
    ensures Words(w + rest) == [w] + Words(rest)
  {
    WordAhead(w, rest);
    assert (w + rest)[0] == w[0];
    assert (w + rest)[..|w|] == w && (w + rest)[|w|..] == rest;
  }

  lemma {:induction false} WordsOfIps(ips: seq<string>)
    requires Tokens(ips)
    ensures Words(PrintIps(ips)) == ips
    ensures PrintIps(ips) == [] || IsSpace(PrintIps(ips)[0])
  {
    if ips != [] {
      var rest := PrintIps(ips[1..]);
      WordsOfIps(ips[1..]);
      FirstWord(ips[0], rest);
      assert PrintIps(ips)[1..] == ips[0] + rest;
    }
  }

  lemma {:induction false} LineAhead(l: string, rest: string)
    requires '\n' !in l
    ensures LineLength(l + ['\n'] + rest) == |l|
  {
    var s := l + ['\n'] + rest;
    if l != [] {
      assert s[1..] == l[1..] + ['\n'] + rest;
      LineAhead(l[1..], rest);
    }
  }

  lemma {:induction false} NoNewline(ips: seq<string>)
    requires Tokens(ips)
    ensures '\n' !in PrintIps(ips)
  {
    if ips != [] {
      NoNewline(ips[1..]);
      assert forall i :: 0 <= i < |ips[0]| ==> ips[0][i] != '\n';
    }
  }

  /** A written file reads back as what was written. */
  lemma {:induction false} FileRoundTrip(ls: seq<Line>)
    requires Printable(ls)
    ensures ParseFile(PrintFile(ls)) == ls
  {
    if ls != [] {
      var l, rest := ls[0], PrintFile(ls[1..]);
      FileRoundTrip(ls[1..]);
      FirstLine(l, rest);
      var s := PrintFile(ls);
      assert Lines(s)[1..] == Lines(rest);
      WordsOfIps(l.ips);
      FirstWord(l.domain, PrintIps(l.ips));
      assert Words(Lines(s)[0]) == [l.domain] + l.ips;
    }
  }

  lemma FirstLine(l: Line, rest: string)
    requires Token(l.domain) && Tokens(l.ips)
    ensures Lines(PrintLine(l) + ['\n'] + rest) == [PrintLine(l)] + Lines(rest)
  {
    var t := PrintLine(l);
    NoNewline(l.ips);
    assert forall i :: 0 <= i < |l.domain| ==> l.domain[i] != '\n';
    LineAhead(t, rest);
    var s := t + ['\n'] + rest;
    assert s[..|t|] == t && s[|t| + 1..] == rest;
  }
}
