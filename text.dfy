/** Case-insensitive substring matching, as `column.icontains(text)` asks of
    the database: `lower(column) LIKE '%' || lower(text) || '%'`. Only ASCII
    letters are folded, and the filter text is taken literally. */
module Text {

  function Lower(c: char): char
  {
    if 'A' <= c <= 'Z' then (c as int + 32) as char else c
  }

  /** The string with every ASCII capital replaced by its small letter. */
  function LowerAll(s: string): (r: string)
    ensures |r| == |s|
  {
    seq(|s|, i requires 0 <= i < |s| => Lower(s[i]))
  }

  /** `needle` occurs in `hay` starting at position `i`. */
  predicate OccursAt(needle: string, hay: string, i: int)
  {
    0 <= i <= |hay| - |needle| && hay[i..i + |needle|] == needle
  }

  /** `needle` occurs in `hay` at some position. */
  predicate Occurs(needle: string, hay: string)
  {
    exists i | 0 <= i <= |hay| :: OccursAt(needle, hay, i)
  }

  predicate ContainsIgnoringCase(hay: string, needle: string)
  {
    Occurs(LowerAll(needle), LowerAll(hay))
  }

  /** Text that `LIKE` reads literally: no `%` or `_` wildcard and no `\`
      escape character. */
  predicate Literal(s: string)
  {
    forall i :: 0 <= i < |s| ==> s[i] != '%' && s[i] != '_' && s[i] != '\\'
  }

  /** Folding twice is folding once. */
  lemma LowerAllIdempotent(s: string)
    ensures LowerAll(LowerAll(s)) == LowerAll(s)
  {
    var once := LowerAll(s);
    assert forall i :: 0 <= i < |s| ==> LowerAll(once)[i] == once[i];
  }

  /** The match ignores case on both sides: folding either argument first
      gives the same answer. */
  lemma ContainsIgnoresCase(hay: string, needle: string)
    ensures ContainsIgnoringCase(hay, needle) == ContainsIgnoringCase(LowerAll(hay), needle)
    ensures ContainsIgnoringCase(hay, needle) == ContainsIgnoringCase(hay, LowerAll(needle))
  {
    LowerAllIdempotent(hay);
    LowerAllIdempotent(needle);
  }

  /** The empty text occurs in every string, so an empty filter would keep
      every row even without the handler's own emptiness test. */
  lemma EmptyTextMatchesAll(hay: string)
    ensures ContainsIgnoringCase(hay, "")
  {
    assert OccursAt(LowerAll(""), LowerAll(hay), 0);
  }
}
