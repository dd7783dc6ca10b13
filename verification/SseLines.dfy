/** When does the parser see the same lines however its input is cut? Exactly when the three terminators
    appear in the order the parser looks for them: CRLF, then LF, then CR. */
module SseLines {
  import opened Basics
  import opened Lines
  import opened Sse

  /** The first terminator, read as WHATWG HTML section 9.2.5 does: CRLF, LF or CR, whichever comes first.
      A CR that is the last character is undecided. */
  function FirstLineEnd(s: string, from: nat): (r: Option<LineEnd>)
    ensures r.Some? ==> from <= r.value.end < r.value.next <= |s| && r.value.next <= r.value.end + 2
    ensures r.Some? ==> s[r.value.end] in "\r\n"
    ensures r.Some? ==> forall i | from <= i < r.value.end :: s[i] !in "\r\n"
    ensures r.None? ==> forall i | from <= i < |s| - 1 :: s[i] !in "\r\n"
    ensures r.None? && from < |s| ==> s[|s| - 1] != '\n'
    decreases |s| - from
  {
    if from >= |s| then None
    else if s[from] == '\n' then Some(LineEnd(from, from + 1))
    else if s[from] == '\r' then
      if from + 1 == |s| then None
      else Some(LineEnd(from, if s[from + 1] == '\n' then from + 2 else from + 1))
    else FirstLineEnd(s, from + 1)
  }

  /** The lines of a text, and what follows the last terminator. */
  function Standard(s: string): (seq<string>, string)
    decreases |s|
  {
    match FirstLineEnd(s, 0)
    case None => ([], s)
    case Some(LineEnd(end, next)) =>
      var (lines, rest) := Standard(s[next..]);
      ([s[..end]] + lines, rest)
  }

  predicate HasCrLf(s: string) {
    FindCrLf(s, 0).Some?
  }

  /** No CRLF follows a lone LF, and neither CRLF nor LF follows a lone CR. */
  predicate Ordered(s: string)
    decreases |s|
  {
    match FirstLineEnd(s, 0)
    case None => true
    case Some(LineEnd(end, next)) =>
      && (s[end] == '\n' ==> !HasCrLf(s[next..]))
      && (s[end] == '\r' && next == end + 1 ==> '\n' !in s[next..])
      && Ordered(s[next..])
  }

  lemma NoCrLf(s: string, from: nat)
    requires from <= |s| && !HasCrLf(s[from..])
    ensures forall i: nat | from <= i :: !CrLfAt(s, i)
  {
    forall i: nat | from <= i
      ensures !CrLfAt(s, i)
    {
      assert CrLfAt(s[from..], i - from) == CrLfAt(s, i);
    }
  }

  lemma FindIs(s: string, c: char, p: nat)
    requires p < |s| && s[p] == c && forall i | 0 <= i < p :: s[i] != c
    ensures Find(s, c, 0) == Some(p)
  {
  }

  lemma FindNone(s: string, c: char)
    requires forall i | 0 <= i < |s| :: s[i] != c
    ensures Find(s, c, 0) == None
  {
  }

  /** On an ordered text the parser's preference picks the first terminator. */
  lemma OrderedPicksFirst(s: string)
    requires Ordered(s)
    ensures FindLineEnd(s) == FirstLineEnd(s, 0)
  {
    var first := FirstLineEnd(s, 0);
    if first.None? {
      FindNone(s, '\n');
    } else {
      var LineEnd(end, next) := first.value;
      FirstLineEndKind(s, 0);
      if next == end + 2 {
        assert CrLfAt(s, end);
      } else if s[end] == '\n' {
        NoCrLf(s, next);
        FindIs(s, '\n', end);
      } else {
        assert forall i | next <= i < |s| :: s[i] == s[next..][i - next];
        FindNone(s, '\n');
        FindIs(s, '\r', end);
      }
    }
  }

  /** A first terminator is a CRLF, a lone LF, or a CR followed by something else. */
  lemma {:induction false} FirstLineEndKind(s: string, from: nat)
    requires FirstLineEnd(s, from).Some?
    ensures var LineEnd(end, next) := FirstLineEnd(s, from).value;
            if next == end + 2 then CrLfAt(s, end)
            else next == end + 1 && (s[end] == '\r' ==> next < |s| && s[next] != '\n')
    decreases |s| - from
  {
    if s[from] !in "\r\n" {
      FirstLineEndKind(s, from + 1);
    }
  }

  lemma {:induction false} OrderedDrain(s: string)
    requires Ordered(s)
    ensures Drain(s) == Standard(s)
    decreases |s|
  {
    OrderedPicksFirst(s);
    if FirstLineEnd(s, 0).Some? {
      OrderedDrain(s[FirstLineEnd(s, 0).value.next..]);
    }
  }

  // ---- Text that arrives later ----------------------------------------------------------------

  lemma {:induction false} FirstLineEndStays(x: string, y: string, from: nat)
    requires FirstLineEnd(x, from).Some?
    ensures FirstLineEnd(x + y, from) == FirstLineEnd(x, from)
    decreases |x| - from
  {
    if x[from] !in "\r\n" {
      FirstLineEndStays(x, y, from + 1);
    }
  }

  lemma {:induction false} OrderedPrefix(x: string, y: string)
    requires Ordered(x + y)
    ensures Ordered(x)
    decreases |x|
  {
    if FirstLineEnd(x, 0).Some? {
      var LineEnd(end, next) := FirstLineEnd(x, 0).value;
      FirstLineEndStays(x, y, 0);
      assert (x + y)[next..] == x[next..] + y;
      OrderedPrefix(x[next..], y);
      if HasCrLf(x[next..]) {
        var p := FindCrLf(x[next..], 0).value;
        assert CrLfAt(x[next..] + y, p);
      }
      assert forall c | c in x[next..] :: c in x[next..] + y;
    }
  }

  /** What a text leaves unfinished, continued, is finished as the whole text is. */
  lemma {:induction false} StandardAppend(x: string, y: string)
    ensures var (lines, rest) := Standard(x);
            Standard(x + y) == (lines + Standard(rest + y).0, Standard(rest + y).1)
    decreases |x|
  {
    if FirstLineEnd(x, 0).Some? {
      var LineEnd(end, next) := FirstLineEnd(x, 0).value;
      FirstLineEndStays(x, y, 0);
      assert (x + y)[next..] == x[next..] + y && (x + y)[..end] == x[..end];
      StandardAppend(x[next..], y);
      var (lines, rest) := Standard(x[next..]);
      Associative([x[..end]], lines, Standard(rest + y).0);
    } else {
      AppendNil(Standard(x + y).0);
    }
  }

  lemma {:induction false} OrderedRest(x: string, y: string)
    requires Ordered(x + y)
    ensures Ordered(Standard(x).1 + y)
    decreases |x|
  {
    if FirstLineEnd(x, 0).Some? {
      var next := FirstLineEnd(x, 0).value.next;
      FirstLineEndStays(x, y, 0);
      assert (x + y)[next..] == x[next..] + y;
      OrderedRest(x[next..], y);
    }
  }

  // ---- Every cut ------------------------------------------------------------------------------

  /** The lines the parser extracts from a cut stream, and what it still holds. */
  function LinesOf(buffer: string, chunks: seq<string>): (seq<string>, string)
    decreases |chunks|
  {
    if |chunks| == 0 then ([], buffer)
    else
      var (lines, rest) := Drain(buffer + chunks[0]);
      var (more, last) := LinesOf(rest, chunks[1..]);
      (lines + more, last)
  }

  lemma {:induction false} OrderedLines(buffer: string, chunks: seq<string>)
    requires Standard(buffer) == ([], buffer) && Ordered(buffer + Concat(chunks))
    ensures LinesOf(buffer, chunks) == Standard(buffer + Concat(chunks))
    decreases |chunks|
  {
    if |chunks| == 0 {
      AppendNil(buffer);
    } else {
      var here, later := buffer + chunks[0], Concat(chunks[1..]);
      Associative(buffer, chunks[0], later);
      OrderedPrefix(here, later);
      OrderedDrain(here);
      StandardAppend(here, later);
      OrderedRest(here, later);
      RestIsUnfinished(here);
      OrderedLines(Standard(here).1, chunks[1..]);
    }
  }

  lemma {:induction false} RestIsUnfinished(s: string)
    ensures Standard(Standard(s).1) == ([], Standard(s).1)
    decreases |s|
  {
    if FirstLineEnd(s, 0).Some? {
      RestIsUnfinished(s[FirstLineEnd(s, 0).value.next..]);
    }
  }

  // ---- One character at a time ----------------------------------------------------------------

  function Characters(s: string): (chunks: seq<string>)
    ensures |chunks| == |s|
  {
    if |s| == 0 then [] else [[s[0]]] + Characters(s[1..])
  }

  lemma {:induction false} CharactersConcat(s: string)
    ensures Concat(Characters(s)) == s
  {
    if |s| > 0 {
      CharactersConcat(s[1..]);
      assert Characters(s)[1..] == Characters(s[1..]);
      SplitsAndJoins(s, 0);
    }
  }

  /** An unfinished line and one more character are always ordered. */
  lemma OneMoreIsOrdered(buffer: string, c: char)
    requires FirstLineEnd(buffer, 0).None?
    ensures Ordered(buffer + [c])
  {
    var s := buffer + [c];
    if FirstLineEnd(s, 0).Some? {
      var LineEnd(end, next) := FirstLineEnd(s, 0).value;
      FirstLineEndKind(s, 0);
      assert end >= |buffer| - 1;
      assert |s[next..]| <= 1;
      assert |s[next..]| == 1 ==> s[next..][0] == c;
      assert FirstLineEnd(s[next..], 0).None? || |s[next..][FirstLineEnd(s[next..], 0).value.next..]| == 0;
    }
  }

  /** Read one character at a time, any text yields its standard lines. */
  lemma {:induction false} CharactersAreStandard(buffer: string, s: string)
    requires Standard(buffer) == ([], buffer) && FirstLineEnd(buffer, 0).None?
    ensures LinesOf(buffer, Characters(s)) == Standard(buffer + s)
    decreases |s|
  {
    if |s| == 0 {
      AppendNil(buffer);
    } else {
      var here := buffer + [s[0]];
      OneMoreIsOrdered(buffer, s[0]);
      OrderedDrain(here);
      assert Characters(s)[0] == [s[0]] && Characters(s)[1..] == Characters(s[1..]);
      assert here + s[1..] == buffer + s;
      StandardAppend(here, s[1..]);
      RestIsUnfinished(here);
      CharactersAreStandard(Standard(here).1, s[1..]);
    }
  }

  // ---- The converse ---------------------------------------------------------------------------

  predicate Unterminated(line: string) {
    '\r' !in line && '\n' !in line
  }

  lemma {:induction false} StandardLinesUnterminated(s: string)
    ensures forall line | line in Standard(s).0 :: Unterminated(line)
    decreases |s|
  {
    if FirstLineEnd(s, 0).Some? {
      StandardLinesUnterminated(s[FirstLineEnd(s, 0).value.next..]);
    }
  }

  /** A disordered text, read whole, yields a line with a terminator inside. */
  lemma {:induction false} DisorderedDrain(s: string)
    requires !Ordered(s)
    ensures exists line :: line in Drain(s).0 && !Unterminated(line)
    decreases |s|
  {
    var LineEnd(end, next) := FirstLineEnd(s, 0).value;
    FirstLineEndKind(s, 0);
    var picked := FindLineEnd(s);
    if picked == Some(LineEnd(end, next)) {
      PickedFirst(s);
      DisorderedDrain(s[next..]);
      var line :| line in Drain(s[next..]).0 && !Unterminated(line);
      assert line in Drain(s).0;
    } else {
      PickedLater(s);
      var line := s[..picked.value.end];
      assert line[end] in "\r\n";
      assert line in Drain(s).0;
    }
  }

  lemma CrLfOfSuffix(s: string, k: nat)
    requires k <= |s| && HasCrLf(s[k..])
    ensures HasCrLf(s)
  {
    var p := FindCrLf(s[k..], 0).value;
    assert CrLfAt(s, k + p);
  }

  lemma PickedFirst(s: string)
    requires FirstLineEnd(s, 0).Some? && FindLineEnd(s) == FirstLineEnd(s, 0)
    ensures var LineEnd(end, next) := FirstLineEnd(s, 0).value;
            && (s[end] == '\n' ==> !HasCrLf(s[next..]))
            && (s[end] == '\r' && next == end + 1 ==> '\n' !in s[next..])
  {
    var LineEnd(end, next) := FirstLineEnd(s, 0).value;
    FirstLineEndKind(s, 0);
    if s[end] == '\n' && HasCrLf(s[next..]) {
      CrLfOfSuffix(s, next);
    }
  }

  lemma PickedLater(s: string)
    requires FirstLineEnd(s, 0).Some? && FindLineEnd(s) != FirstLineEnd(s, 0)
    ensures FindLineEnd(s).Some? && FirstLineEnd(s, 0).value.end < FindLineEnd(s).value.end
  {
    var LineEnd(end, next) := FirstLineEnd(s, 0).value;
    FirstLineEndKind(s, 0);
  }

  /** Main result: the lines, and what is still held, are the same for every cut of a text exactly when its
      terminators are in order. */
  lemma CutsDoNotMatter(s: string)
    ensures (forall chunks | Concat(chunks) == s :: LinesOf("", chunks) == Standard(s)) <==> Ordered(s)
  {
    if Ordered(s) {
      forall chunks | Concat(chunks) == s
        ensures LinesOf("", chunks) == Standard(s)
      {
        AppendNil(s);
        OrderedLines("", chunks);
      }
    } else {
      ConcatSingle(s);
      DisorderedDrain(s);
      StandardLinesUnterminated(s);
      AppendNil(s);
      AppendNil(Drain(s).0);
      assert |[s][1..]| == 0;
      assert LinesOf("", [s]) == Drain(s);
    }
  }

  /** A text with one kind of terminator is in order. */
  lemma {:induction false} LfOnlyIsOrdered(s: string)
    requires '\r' !in s
    ensures Ordered(s)
    decreases |s|
  {
    if FirstLineEnd(s, 0).Some? {
      var next := FirstLineEnd(s, 0).value.next;
      assert forall c | c in s[next..] :: c in s;
      LfOnlyIsOrdered(s[next..]);
    }
  }

  lemma {:induction false} CrLfOnlyIsOrdered(s: string)
    requires forall i | 0 <= i < |s| :: s[i] == '\r' ==> CrLfAt(s, i)
    requires forall i | 0 <= i < |s| :: s[i] == '\n' ==> i > 0 && CrLfAt(s, i - 1)
    ensures Ordered(s)
    decreases |s|
  {
    if FirstLineEnd(s, 0).Some? {
      var LineEnd(end, next) := FirstLineEnd(s, 0).value;
      FirstLineEndKind(s, 0);
      var t := s[next..];
      assert forall i | 0 <= i < |t| :: t[i] == s[next + i];
      assert forall i | 0 <= i < |t| && t[i] == '\r' :: CrLfAt(s, next + i);
      assert forall i | 0 <= i < |t| && t[i] == '\n' :: CrLfAt(s, next + i - 1);
      CrLfOnlyIsOrdered(t);
    }
  }
}
