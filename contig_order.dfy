/**
  The order in which the percentage split visits contigs: the list of
  `(length, contig)` tuples sorted with `reverse=True`, i.e. descending by
  length, then by chromosome name (compared character by character), then by
  start, then by end.
 */
module ContigOrder {
  import opened Genome

  /** Lexicographic string order, as Python compares `str` values. */
  predicate StrLess(a: string, b: string)
  {
    if a == [] then b != []
    else if b == [] then false
    else if a[0] != b[0] then a[0] < b[0]
    else StrLess(a[1..], b[1..])
  }

  lemma {:induction false} StrLessIrreflexive(a: string)
    ensures !StrLess(a, a)
  {
    if a != [] {
      StrLessIrreflexive(a[1..]);
    }
  }

  lemma {:induction false} StrLessTotal(a: string, b: string)
    ensures a == b || StrLess(a, b) || StrLess(b, a)
  {
    if a != [] && b != [] && a[0] == b[0] {
      StrLessTotal(a[1..], b[1..]);
      if a[1..] == b[1..] {
        assert a == [a[0]] + a[1..] && b == [b[0]] + b[1..];
      }
    }
  }

  lemma {:induction false} StrLessTransitive(a: string, b: string, c: string)
    requires StrLess(a, b) && StrLess(b, c)
    ensures StrLess(a, c)
  {
    if a != [] && a[0] == b[0] && b[0] == c[0] {
      StrLessTransitive(a[1..], b[1..], c[1..]);
    }
  }

  /** `a` sorts no later than `b` in ascending tuple order `(length, chr, start, end)`. */
  predicate KeyLe(a: Contig, b: Contig)
  {
    || Length(a) < Length(b)
    || (Length(a) == Length(b) && StrLess(a.chr, b.chr))
    || (Length(a) == Length(b) && a.chr == b.chr && a.start < b.start)
    || (Length(a) == Length(b) && a.chr == b.chr && a.start == b.start && a.end <= b.end)
  }

  lemma KeyLeTotal(a: Contig, b: Contig)
    ensures KeyLe(a, b) || KeyLe(b, a)
  {
    StrLessTotal(a.chr, b.chr);
  }

  lemma KeyLeTransitive(a: Contig, b: Contig, c: Contig)
    requires KeyLe(a, b) && KeyLe(b, c)
    ensures KeyLe(a, c)
  {
    if Length(a) == Length(b) == Length(c) {
      if StrLess(a.chr, b.chr) && StrLess(b.chr, c.chr) {
        StrLessTransitive(a.chr, b.chr, c.chr);
      }
      StrLessIrreflexive(a.chr);
      if StrLess(a.chr, b.chr) && StrLess(b.chr, a.chr) {
        StrLessTransitive(a.chr, b.chr, a.chr);
      }
    }
  }

  /** Descending tuple order: every element sorts no earlier than those after it. */
  ghost predicate SortedDescending(s: seq<Contig>)
  {
    forall i, j :: 0 <= i < j < |s| ==> KeyLe(s[j], s[i])
  }

  /** Inserts `x` into a descending list before the first element it does not follow. */
  function Insert(x: Contig, s: seq<Contig>): (r: seq<Contig>)
    ensures multiset(r) == multiset(s) + multiset{x} && |r| == |s| + 1
  {
    if s == [] || KeyLe(s[0], x) then [x] + s
    else
      assert s == [s[0]] + s[1..];
      [s[0]] + Insert(x, s[1..])
  }

  /** The insertion keeps the list descending. */
  lemma {:induction false} InsertSorted(x: Contig, s: seq<Contig>)
    requires SortedDescending(s)
    ensures SortedDescending(Insert(x, s))
  {
    var r := Insert(x, s);
    if s == [] || KeyLe(s[0], x) {
      forall j | 1 <= j < |r| ensures KeyLe(r[j], r[0]) {
        if j > 1 {
          KeyLeTransitive(s[j - 1], s[0], x);
        }
      }
    } else {
      KeyLeTotal(s[0], x);
      InsertSorted(x, s[1..]);
      var t := Insert(x, s[1..]);
      forall j | 0 <= j < |t| ensures KeyLe(t[j], s[0]) {
        assert t[j] in multiset(t);
        assert t[j] == x || t[j] in multiset(s[1..]);
        if t[j] != x {
          var k :| 0 <= k < |s[1..]| && s[1..][k] == t[j];
          assert KeyLe(s[k + 1], s[0]);
        }
      }
    }
  }

  /** Python's `sort(reverse=True)` of the `(length, contig)` tuples. */
  function SortDescending(cs: seq<Contig>): (r: seq<Contig>)
    ensures multiset(r) == multiset(cs) && |r| == |cs|
  {
    if cs == [] then []
    else
      assert cs == [cs[0]] + cs[1..];
      Insert(cs[0], SortDescending(cs[1..]))
  }

  /** The sorted list is a permutation of the input, in descending tuple order,
      so in particular with non-increasing lengths. */
  lemma {:induction false} SortDescendingCorrect(cs: seq<Contig>)
    ensures multiset(SortDescending(cs)) == multiset(cs) && |SortDescending(cs)| == |cs|
    ensures SortedDescending(SortDescending(cs))
    ensures forall i, j :: 0 <= i < j < |cs| ==> Length(SortDescending(cs)[i]) >= Length(SortDescending(cs)[j])
  {
    if cs != [] {
      SortDescendingCorrect(cs[1..]);
      InsertSorted(cs[0], SortDescending(cs[1..]));
    }
  }
}
