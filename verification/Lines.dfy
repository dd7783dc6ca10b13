/** Finding a character, and cutting a text at its line feeds. */
module Lines {
  import opened Basics

  /** First position of `c` at or after `from`. */
  function Find(s: string, c: char, from: nat): (r: Option<nat>)
    ensures r.Some? ==> from <= r.value < |s| && s[r.value] == c
    ensures forall i | from <= i < |s| && (r.Some? ==> i < r.value) :: s[i] != c
    decreases |s| - from
  {
    if from >= |s| then None else if s[from] == c then Some(from) else Find(s, c, from + 1)
  }

  /** `text` cut at its line feeds. */
  function SplitLines(text: string): (parts: seq<string>)
    ensures |parts| > 0
    decreases |text|
  {
    match Find(text, '\n', 0)
    case None => [text]
    case Some(p) => [text[..p]] + SplitLines(text[p + 1..])
  }

  /** The last piece is what follows the last line feed; only the pieces before it are complete lines. */
  lemma {:induction false} SplitAppend(x: string, y: string)
    ensures var parts := SplitLines(x);
            var k := |parts| - 1;
            SplitLines(x + y) == parts[..k] + SplitLines(parts[k] + y)
    decreases |x|
  {
    var p := Find(x, '\n', 0);
    if p.None? {
      assert [x][..0] == [];
      AppendNil(SplitLines(x + y));
    } else {
      FindStays(x, y, 0);
      assert (x + y)[..p.value] == x[..p.value] && (x + y)[p.value + 1..] == x[p.value + 1..] + y;
      SplitAppend(x[p.value + 1..], y);
      var rest := SplitLines(x[p.value + 1..]);
      var parts := [x[..p.value]] + rest;
      assert parts[..|parts| - 1] == [x[..p.value]] + rest[..|rest| - 1];
      Associative([x[..p.value]], rest[..|rest| - 1], SplitLines(rest[|rest| - 1] + y));
    }
  }

  lemma {:induction false} FindStays(x: string, y: string, from: nat)
    requires Find(x, '\n', from).Some?
    ensures Find(x + y, '\n', from) == Find(x, '\n', from)
    decreases |x| - from
  {
    if x[from] != '\n' {
      FindStays(x, y, from + 1);
    }
  }
}
