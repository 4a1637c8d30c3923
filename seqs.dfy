/** Sequence operations standing for the SQL a handler sends: a `WHERE`
    clause keeps the rows a predicate accepts (in table order, since no query
    has an `ORDER BY`), `session.scalar` takes the first such row, and
    `OFFSET`/`LIMIT` cut a page out of the result. */
module Seqs {
  import opened Results

  function Min(a: int, b: int): int { if a <= b then a else b }
  function Max(a: int, b: int): int { if a <= b then b else a }

  /** The position of the first element `p` accepts, or None when none does. */
  function FirstIndex<T>(s: seq<T>, p: T -> bool): (r: Option<nat>)
    ensures r.Some? ==> r.value < |s| && p(s[r.value])
    ensures r.Some? ==> forall j :: 0 <= j < r.value ==> !p(s[j])
    ensures r.None? <==> forall j :: 0 <= j < |s| ==> !p(s[j])
    decreases |s|
  {
    if |s| == 0 then None
    else if p(s[0]) then Some(0)
    else match FirstIndex(s[1..], p)
      case None => None
      case Some(k) => Some(k + 1)
  }

  /** Two sequences on which `p` answers alike, position by position, have
      their first accepted element at the same position. */
  lemma {:induction false} FirstIndexAgree<T, U>(s: seq<T>, p: T -> bool, t: seq<U>, q: U -> bool)
    requires |s| == |t|
    requires forall j :: 0 <= j < |s| ==> p(s[j]) == q(t[j])
    ensures FirstIndex(s, p) == FirstIndex(t, q)
    decreases |s|
  {
    if |s| > 0 {
      FirstIndexAgree(s[1..], p, t[1..], q);
    }
  }

  /** The rows of `s` that `keep` accepts, in their original order. */
  function Where<T>(s: seq<T>, keep: T -> bool): (r: seq<T>)
    ensures |r| <= |s|
    ensures forall i :: 0 <= i < |r| ==> keep(r[i])
    decreases |s|
  {
    if |s| == 0 then []
    else (if keep(s[0]) then [s[0]] else []) + Where(s[1..], keep)
  }

  /** `OFFSET offset LIMIT limit`: drop the first `offset` rows, keep at most
      `limit` of the rest. */
  function Page<T>(s: seq<T>, offset: nat, limit: nat): (r: seq<T>)
    ensures |r| == Min(limit, Max(0, |s| - offset))
    ensures forall i :: 0 <= i < |r| ==> r[i] == s[offset + i]
  {
    if offset >= |s| then [] else s[offset..offset + Min(limit, |s| - offset)]
  }

  /** A row is selected exactly when it is in the table and passes. */
  lemma {:induction false} WhereMembership<T>(s: seq<T>, keep: T -> bool, x: T)
    ensures x in Where(s, keep) <==> x in s && keep(x)
    decreases |s|
  {
    if |s| > 0 {
      WhereMembership(s[1..], keep, x);
      assert s == [s[0]] + s[1..];
    }
  }

  /** A filter that accepts every row changes nothing. */
  lemma {:induction false} WhereAll<T>(s: seq<T>, keep: T -> bool)
    requires forall j :: 0 <= j < |s| ==> keep(s[j])
    ensures Where(s, keep) == s
    decreases |s|
  {
    if |s| > 0 {
      WhereAll(s[1..], keep);
    }
  }

  /** A filter that rejects every row leaves nothing. */
  lemma {:induction false} WhereNone<T>(s: seq<T>, keep: T -> bool)
    requires forall j :: 0 <= j < |s| ==> !keep(s[j])
    ensures Where(s, keep) == []
    decreases |s|
  {
    if |s| > 0 {
      WhereNone(s[1..], keep);
    }
  }

  /** Filtering a concatenation filters each part. */
  lemma {:induction false} WhereAppend<T>(a: seq<T>, b: seq<T>, keep: T -> bool)
    ensures Where(a + b, keep) == Where(a, keep) + Where(b, keep)
    decreases |a|
  {
    if |a| > 0 {
      assert (a + b)[1..] == a[1..] + b;
      WhereAppend(a[1..], b, keep);
    } else {
      assert a + b == b;
    }
  }

  /** Two filters that agree on every row select the same rows. */
  lemma {:induction false} WhereAgree<T>(s: seq<T>, f: T -> bool, g: T -> bool)
    requires forall j :: 0 <= j < |s| ==> f(s[j]) == g(s[j])
    ensures Where(s, f) == Where(s, g)
    decreases |s|
  {
    if |s| > 0 {
      WhereAgree(s[1..], f, g);
    }
  }

  /** Applying one filter after another is the same as applying their
      conjunction once: chained `.filter(...)` calls combine with AND. */
  lemma {:induction false} WhereThenWhere<T>(s: seq<T>, p: T -> bool, q: T -> bool, both: T -> bool)
    requires forall x :: both(x) == (p(x) && q(x))
    ensures Where(Where(s, p), q) == Where(s, both)
    decreases |s|
  {
    if |s| > 0 {
      WhereThenWhere(s[1..], p, q, both);
      var head := if p(s[0]) then [s[0]] else [];
      WhereAppend(head, Where(s[1..], p), q);
    }
  }

  /** Consecutive pages tile the result: the page at `offset` of size `n`
      followed by the page right after it is one page of size `n + m`. */
  lemma PagesTile<T>(s: seq<T>, offset: nat, n: nat, m: nat)
    ensures Page(s, offset, n) + Page(s, offset + n, m) == Page(s, offset, n + m)
  {
    if offset >= |s| {
    } else if offset + n >= |s| {
      assert Page(s, offset + n, m) == [];
      assert Page(s, offset, n) == s[offset..];
    } else {
      var end := offset + n + Min(m, |s| - offset - n);
      assert Page(s, offset, n) == s[offset..offset + n];
      assert Page(s, offset + n, m) == s[offset + n..end];
      assert Page(s, offset, n + m) == s[offset..end];
      assert s[offset..end] == s[offset..offset + n] + s[offset + n..end];
    }
  }

}
