/** The pieces of SELECT the endpoints use: WHERE as a filter over a scan, ORDER BY as a
    sort by a total preorder, `DESC`, text comparison under an ASCII case-folding
    approximation of the collation, `LIKE` patterns, `CONCAT()` with its NULL rule, and `DATE()` of a DATETIME. */
module Query {
  import opened Php

  // ---------------------------------------------------------------------------
  // WHERE
  // ---------------------------------------------------------------------------

  /** The elements of `s` that satisfy `p`, in their original order. */
  function Filter<T>(s: seq<T>, p: T -> bool): (r: seq<T>)
    ensures |r| <= |s|
    ensures forall i :: 0 <= i < |r| ==> p(r[i])
  {
    if s == [] then []
    else Filter(s[..|s| - 1], p) + (if p(s[|s| - 1]) then [s[|s| - 1]] else [])
  }

  /** Filtering keeps exactly the elements that satisfy the predicate. */
  lemma {:induction false} FilterMembers<T>(s: seq<T>, p: T -> bool, x: T)
    ensures x in Filter(s, p) <==> x in s && p(x)
  {
    if s != [] {
      FilterMembers(s[..|s| - 1], p, x);
      assert s == s[..|s| - 1] + [s[|s| - 1]];
    }
  }

  lemma {:induction false} FilterAppend<T>(a: seq<T>, b: seq<T>, p: T -> bool)
    ensures Filter(a + b, p) == Filter(a, p) + Filter(b, p)
    decreases |b|
  {
    if b == [] {
      assert a + b == a;
    } else {
      var b' := b[..|b| - 1];
      assert (a + b)[..|a + b| - 1] == a + b';
      FilterAppend(a, b', p);
    }
  }

  /** Filtering keeps a sequence whole when every element satisfies the predicate. */
  lemma {:induction false} FilterAll<T>(s: seq<T>, p: T -> bool)
    requires forall i :: 0 <= i < |s| ==> p(s[i])
    ensures Filter(s, p) == s
  {
    if s != [] {
      FilterAll(s[..|s| - 1], p);
    }
  }

  /** Filtering empties a sequence none of whose elements satisfies the predicate. */
  lemma {:induction false} FilterNone<T>(s: seq<T>, p: T -> bool)
    requires forall i :: 0 <= i < |s| ==> !p(s[i])
    ensures Filter(s, p) == []
  {
    if s != [] {
      FilterNone(s[..|s| - 1], p);
    }
  }

  /** Filtering a sequence in which the projection `key` strictly increases keeps it increasing. */
  lemma {:induction false} FilterIncreasing<T>(s: seq<T>, p: T -> bool, key: T -> int)
    requires forall i, j :: 0 <= i < j < |s| ==> key(s[i]) < key(s[j])
    ensures forall i, j :: 0 <= i < j < |Filter(s, p)| ==> key(Filter(s, p)[i]) < key(Filter(s, p)[j])
  {
    if s != [] {
      var s' := s[..|s| - 1];
      FilterIncreasing(s', p, key);
      var last := s[|s| - 1];
      forall y | y in Filter(s', p) ensures key(y) < key(last) {
        FilterMembers(s', p, y);
      }
    }
  }

  // ---------------------------------------------------------------------------
  // ORDER BY
  // ---------------------------------------------------------------------------

  /** A sequence in which `key` strictly increases holds each of its elements once. */
  lemma IncreasingOnce<T>(s: seq<T>, key: T -> int, a: int)
    requires forall i, j :: 0 <= i < j < |s| ==> key(s[i]) < key(s[j])
    requires 0 <= a < |s|
    ensures multiset(s)[s[a]] == 1
  {
    assert s == s[..a] + [s[a]] + s[a + 1..];
    assert s[a] !in s[..a] && s[a] !in s[a + 1..];
  }

  /** An element at two positions is counted at least twice. */
  lemma TwiceCounted<T>(r: seq<T>, i: int, j: int)
    requires 0 <= i < j < |r| && r[i] == r[j]
    ensures multiset(r)[r[i]] >= 2
  {
    assert r == r[..j] + [r[j]] + r[j + 1..];
    assert r[i] in r[..j];
  }

  /** Reordering a sequence in which `key` strictly increases (a primary-key scan) never
      repeats a key: each row appears once. */
  lemma PermutationKeysDistinct<T>(s: seq<T>, r: seq<T>, key: T -> int)
    requires multiset(r) == multiset(s)
    requires forall i, j :: 0 <= i < j < |s| ==> key(s[i]) < key(s[j])
    ensures forall i, j :: 0 <= i < j < |r| ==> key(r[i]) != key(r[j])
  {
    forall i, j | 0 <= i < j < |r|
      ensures key(r[i]) != key(r[j])
    {
      if key(r[i]) == key(r[j]) {
        assert r[i] in multiset(s) && r[j] in multiset(s);
        var a :| 0 <= a < |s| && s[a] == r[i];
        var b :| 0 <= b < |s| && s[b] == r[j];
        if a == b {
          IncreasingOnce(s, key, a);
          TwiceCounted(r, i, j);
        }
      }
    }
  }

  /** An ORDER BY comparison: total and transitive; ties are allowed. */
  ghost predicate TotalPreorder<T(!new)>(leq: (T, T) -> bool) {
    (forall a, b :: leq(a, b) || leq(b, a)) &&
    (forall a, b, c :: leq(a, b) && leq(b, c) ==> leq(a, c))
  }

  ghost predicate Sorted<T>(s: seq<T>, leq: (T, T) -> bool) {
    forall i, j :: 0 <= i < j < |s| ==> leq(s[i], s[j])
  }

  /** The comparison for `DESC`. */
  function Flip<T>(leq: (T, T) -> bool): (T, T) -> bool {
    (a, b) => leq(b, a)
  }

  lemma FlipTotalPreorder<T(!new)>(leq: (T, T) -> bool)
    requires TotalPreorder(leq)
    ensures TotalPreorder(Flip(leq))
  {
  }

  /** The number of leading elements of `s` that `x` does not precede. */
  function Position<T>(x: T, s: seq<T>, leq: (T, T) -> bool): (k: nat)
    ensures k <= |s|
    ensures forall i :: 0 <= i < k ==> !leq(x, s[i])
    ensures k < |s| ==> leq(x, s[k])
  {
    if s == [] || leq(x, s[0]) then 0 else 1 + Position(x, s[1..], leq)
  }

  /** Inserts `x` in front of the first element it precedes. */
  function InsertSorted<T(==, !new)>(x: T, s: seq<T>, leq: (T, T) -> bool): (r: seq<T>)
    requires TotalPreorder(leq) && Sorted(s, leq)
    ensures Sorted(r, leq)
    ensures multiset(r) == multiset(s) + multiset{x}
  {
    var k := Position(x, s, leq);
    InsertAtSorted(x, s, leq, k);
    InsertAtMultiset(x, s, k);
    s[..k] + [x] + s[k..]
  }

  lemma InsertAtMultiset<T>(x: T, s: seq<T>, k: nat)
    requires k <= |s|
    ensures multiset(s[..k] + [x] + s[k..]) == multiset(s) + multiset{x}
  {
    assert s == s[..k] + s[k..];
  }

  lemma InsertAtSorted<T(!new)>(x: T, s: seq<T>, leq: (T, T) -> bool, k: nat)
    requires TotalPreorder(leq) && Sorted(s, leq)
    requires k <= |s|
    requires forall i :: 0 <= i < k ==> !leq(x, s[i])
    requires k < |s| ==> leq(x, s[k])
    ensures Sorted(s[..k] + [x] + s[k..], leq)
  {
    var r := s[..k] + [x] + s[k..];
    forall i | 0 <= i < k ensures leq(s[i], x) {
      assert !leq(x, s[i]);
    }
    forall j | k <= j < |s| ensures leq(x, s[j]) {
      assert leq(x, s[k]);
      if j > k {
        assert leq(s[k], s[j]);
      }
    }
    forall i, j | 0 <= i < j < |r| ensures leq(r[i], r[j]) {
      if j < k {
        assert r[i] == s[i] && r[j] == s[j];
      } else if j == k {
        assert r[i] == s[i] && r[j] == x;
      } else if i < k {
        assert r[i] == s[i] && r[j] == s[j - 1];
        assert leq(s[i], x) && leq(x, s[j - 1]);
      } else if i == k {
        assert r[i] == x && r[j] == s[j - 1];
      } else {
        assert r[i] == s[i - 1] && r[j] == s[j - 1];
      }
    }
  }

  /** `ORDER BY` under `leq`; rows that compare equal keep the order of `s`. */
  function SortBy<T(==, !new)>(s: seq<T>, leq: (T, T) -> bool): (r: seq<T>)
    requires TotalPreorder(leq)
    ensures Sorted(r, leq)
    ensures multiset(r) == multiset(s)
  {
    if s == [] then []
    else
      assert s == [s[0]] + s[1..];
      InsertSorted(s[0], SortBy(s[1..], leq), leq)
  }

  /** WHERE and ORDER BY over a scan in increasing `key` order list each row once. */
  lemma SortFilterDistinct<T(!new)>(s: seq<T>, p: T -> bool, leq: (T, T) -> bool, key: T -> int)
    requires TotalPreorder(leq)
    requires forall i, j :: 0 <= i < j < |s| ==> key(s[i]) < key(s[j])
    ensures forall i, j :: 0 <= i < j < |SortBy(Filter(s, p), leq)| ==>
      key(SortBy(Filter(s, p), leq)[i]) != key(SortBy(Filter(s, p), leq)[j])
  {
    FilterIncreasing(s, p, key);
    PermutationKeysDistinct(Filter(s, p), SortBy(Filter(s, p), leq), key);
  }

  /** Sorting keeps exactly the elements it was given. */
  lemma SortByMembers<T(!new)>(s: seq<T>, leq: (T, T) -> bool, x: T)
    requires TotalPreorder(leq)
    ensures x in SortBy(s, leq) <==> x in s
  {
    assert x in SortBy(s, leq) <==> x in multiset(SortBy(s, leq));
    assert x in s <==> x in multiset(s);
  }

  /** The elements in reverse order. */
  function Reverse<T>(s: seq<T>): (r: seq<T>)
    ensures |r| == |s|
    ensures forall i :: 0 <= i < |s| ==> r[i] == s[|s| - 1 - i]
  {
    if s == [] then [] else [s[|s| - 1]] + Reverse(s[..|s| - 1])
  }

  lemma ReverseMembers<T>(s: seq<T>, x: T)
    ensures x in Reverse(s) <==> x in s
  {
    if x in s {
      var i :| 0 <= i < |s| && s[i] == x;
      assert Reverse(s)[|s| - 1 - i] == x;
    }
  }

  /** `ORDER BY id DESC` on a scan in increasing id order: ids strictly decrease. */
  lemma ReverseDecreasing<T>(s: seq<T>, key: T -> int)
    requires forall i, j :: 0 <= i < j < |s| ==> key(s[i]) < key(s[j])
    ensures forall i, j :: 0 <= i < j < |Reverse(s)| ==> key(Reverse(s)[i]) > key(Reverse(s)[j])
  {
  }

  // ---------------------------------------------------------------------------
  // Text under an approximation of the case-insensitive collation
  // ---------------------------------------------------------------------------

  /** The case folding of the collation, approximated: only the ASCII letters are folded. */
  function Fold(c: char): (d: char)
    ensures 'A' <= c <= 'Z' ==> 'a' <= d <= 'z'
    ensures !('A' <= c <= 'Z') ==> d == c
  {
    if 'A' <= c <= 'Z' then (c as int - 'A' as int + 'a' as int) as char else c
  }

  function FoldStr(s: string): (r: string)
    ensures |r| == |s|
    ensures forall i :: 0 <= i < |s| ==> r[i] == Fold(s[i])
  {
    if s == [] then [] else [Fold(s[0])] + FoldStr(s[1..])
  }

  /** `a = b` between two strings under the collation. */
  predicate SameText(a: string, b: string) {
    FoldStr(a) == FoldStr(b)
  }

  /** Lexicographic order on character codes, standing in for the collation's weights. */
  predicate Lex(a: string, b: string) {
    a == [] || (b != [] && (a[0] < b[0] || (a[0] == b[0] && Lex(a[1..], b[1..]))))
  }

  lemma {:induction false} LexTotal(a: string, b: string)
    ensures Lex(a, b) || Lex(b, a)
  {
    if a != [] && b != [] && a[0] == b[0] {
      LexTotal(a[1..], b[1..]);
    }
  }

  lemma {:induction false} LexTransitive(a: string, b: string, c: string)
    requires Lex(a, b) && Lex(b, c)
    ensures Lex(a, c)
  {
    if a != [] && b != [] && c != [] && a[0] == b[0] && b[0] == c[0] {
      LexTransitive(a[1..], b[1..], c[1..]);
    }
  }

  /** `ORDER BY name` under the collation. */
  predicate TextLeq(a: string, b: string) {
    Lex(FoldStr(a), FoldStr(b))
  }

  /** A key comparison lifted to rows by a projection. */
  function ByText<T>(key: T -> string): (T, T) -> bool {
    (x, y) => TextLeq(key(x), key(y))
  }

  function ByInt<T>(key: T -> int): (T, T) -> bool {
    (x, y) => key(x) <= key(y)
  }

  lemma ByTextTotalPreorder<T(!new)>(key: T -> string)
    ensures TotalPreorder(ByText(key))
  {
    forall a, b ensures ByText(key)(a, b) || ByText(key)(b, a) {
      LexTotal(FoldStr(key(a)), FoldStr(key(b)));
    }
    forall a, b, c | ByText(key)(a, b) && ByText(key)(b, c) ensures ByText(key)(a, c) {
      LexTransitive(FoldStr(key(a)), FoldStr(key(b)), FoldStr(key(c)));
    }
  }

  lemma ByIntTotalPreorder<T(!new)>(key: T -> int)
    ensures TotalPreorder(ByInt(key))
  {
  }

  // ---------------------------------------------------------------------------
  // LIKE
  // ---------------------------------------------------------------------------

  /** `s LIKE p`: `%` matches any run of characters, `_` exactly one, `\` makes the next
      character literal, and letters compare under the collation's case folding. */
  predicate Like(s: string, p: string)
    decreases |s| + |p|
  {
    if p == [] then s == []
    else if p[0] == '%' then Like(s, p[1..]) || (s != [] && Like(s[1..], p))
    else if p[0] == '_' then s != [] && Like(s[1..], p[1..])
    else if p[0] == '\\' && |p| >= 2 then s != [] && Fold(s[0]) == Fold(p[1]) && Like(s[1..], p[2..])
    else s != [] && Fold(s[0]) == Fold(p[0]) && Like(s[1..], p[1..])
  }

  /** A pattern character with no special meaning. */
  predicate Plain(c: char) {
    c != '%' && c != '_' && c != '\\'
  }

  /** `q` occurs in `s` at position i, up to case. */
  predicate OccursAt(q: string, s: string, i: int) {
    0 <= i && i + |q| <= |s| && FoldStr(s[i..i + |q|]) == FoldStr(q)
  }

  /** Two strings of one length fold alike exactly when their heads and their tails do. */
  lemma FoldStrCons(a: string, b: string)
    requires |a| == |b| > 0
    ensures FoldStr(a) == FoldStr(b) <==> Fold(a[0]) == Fold(b[0]) && FoldStr(a[1..]) == FoldStr(b[1..])
  {
    assert FoldStr(a) == [Fold(a[0])] + FoldStr(a[1..]);
    assert FoldStr(b) == [Fold(b[0])] + FoldStr(b[1..]);
    if FoldStr(a) == FoldStr(b) {
      assert FoldStr(a)[1..] == FoldStr(a[1..]) && FoldStr(b)[1..] == FoldStr(b[1..]);
    }
  }

  /** A literal pattern matches exactly the strings equal to it up to case. */
  lemma {:induction false} LikeLiteral(s: string, q: string, rest: string)
    requires forall i :: 0 <= i < |q| ==> Plain(q[i])
    ensures Like(s, q + rest) <==> |q| <= |s| && FoldStr(s[..|q|]) == FoldStr(q) && Like(s[|q|..], rest)
  {
    if q == [] {
      assert q + rest == rest;
      assert s[..0] == [] && s[0..] == s;
    } else {
      var p := q + rest;
      assert p[0] == q[0] && p[1..] == q[1..] + rest;
      assert Like(s, p) <==> s != [] && Fold(s[0]) == Fold(q[0]) && Like(s[1..], q[1..] + rest) by {
        assert Plain(q[0]);
      }
      if s != [] {
        LikeLiteral(s[1..], q[1..], rest);
        if |q| <= |s| {
          assert s[1..][|q| - 1..] == s[|q|..];
          assert s[..|q|][0] == s[0] && s[..|q|][1..] == s[1..][..|q| - 1];
          FoldStrCons(s[..|q|], q);
        }
      }
    }
  }

  /** `%` followed by `rest` matches when `rest` matches some suffix, and only then. */
  lemma {:induction false} LikePercent(s: string, rest: string)
    ensures Like(s, "%" + rest) <==> exists i :: 0 <= i <= |s| && Like(s[i..], rest)
    decreases |s|
  {
    var p := "%" + rest;
    assert p[1..] == rest;
    if s == [] {
      assert Like(s, p) <==> Like(s, rest);
      assert s[0..] == s;
    } else {
      LikePercent(s[1..], rest);
      assert s[0..] == s;
      if exists i :: 0 <= i <= |s| && Like(s[i..], rest) {
        var i :| 0 <= i <= |s| && Like(s[i..], rest);
        if i > 0 {
          assert s[1..][i - 1..] == s[i..];
        }
      }
      if exists i :: 0 <= i <= |s[1..]| && Like(s[1..][i..], rest) {
        var i :| 0 <= i <= |s[1..]| && Like(s[1..][i..], rest);
        assert s[1..][i..] == s[i + 1..];
      }
    }
  }

  /** `%` alone matches every string. */
  lemma {:induction false} LikeAny(s: string)
    ensures Like(s, "%")
    decreases |s|
  {
    assert "%"[1..] == [];
    if s != [] {
      LikeAny(s[1..]);
    }
  }

  lemma OccursFromPrefix(s: string, q: string, i: int)
    requires 0 <= i <= |s| && |q| <= |s[i..]| && FoldStr(s[i..][..|q|]) == FoldStr(q)
    ensures OccursAt(q, s, i)
  {
    SuffixPrefix(s, i, |q|);
  }

  lemma SuffixPrefix<T>(s: seq<T>, i: int, n: int)
    requires 0 <= i <= |s| && 0 <= n <= |s| - i
    ensures s[i..][..n] == s[i..i + n]
  {
  }

  lemma ContainsOccurs(s: string, q: string, i: int)
    requires forall k :: 0 <= k < |q| ==> Plain(q[k])
    requires OccursAt(q, s, i)
    ensures Like(s[i..], q + "%")
  {
    assert s[i..][..|q|] == s[i..i + |q|];
    LikeAny(s[i..][|q|..]);
    LikeLiteral(s[i..], q, "%");
  }

  /** `s LIKE '%q%'` for a search term without wildcards is exactly "q occurs in s, up to case". */
  lemma Contains(s: string, q: string)
    requires forall i :: 0 <= i < |q| ==> Plain(q[i])
    ensures Like(s, "%" + q + "%") <==> exists i :: OccursAt(q, s, i)
  {
    assert "%" + q + "%" == "%" + (q + "%");
    LikePercent(s, q + "%");
    if Like(s, "%" + (q + "%")) {
      var i :| 0 <= i <= |s| && Like(s[i..], q + "%");
      LikeLiteral(s[i..], q, "%");
      OccursFromPrefix(s, q, i);
    }
    if exists i :: OccursAt(q, s, i) {
      var i :| OccursAt(q, s, i);
      ContainsOccurs(s, q, i);
    }
  }

  // ---------------------------------------------------------------------------
  // CONCAT()
  // ---------------------------------------------------------------------------

  /** `CONCAT(a, b, ...)`: the concatenation, or NULL as soon as one argument is NULL. */
  function Concat(parts: seq<Option<string>>): (r: Option<string>)
    ensures r.Some? <==> forall i :: 0 <= i < |parts| ==> parts[i].Some?
  {
    if parts == [] then Some("")
    else
      var init := Concat(parts[..|parts| - 1]);
      var last := parts[|parts| - 1];
      if init.Some? && last.Some? then Some(init.value + last.value) else None
  }

  // ---------------------------------------------------------------------------
  // DATE()
  // ---------------------------------------------------------------------------

  const SecondsPerDay: int := 86400

  /** `DATE(t)` of a DATETIME held as seconds since the epoch: the day number. */
  function DayOf(t: int): (d: int)
    ensures d * SecondsPerDay <= t < (d + 1) * SecondsPerDay
  {
    t / SecondsPerDay
  }

  /** `t >= CURDATE()` compares with midnight of today: it holds exactly for instants on or
      after today's date. */
  lemma OnOrAfterToday(t: int, today: int)
    ensures t >= today * SecondsPerDay <==> DayOf(t) >= today
  {
  }
}
