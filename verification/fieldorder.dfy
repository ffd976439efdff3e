/** The ordering step of `Marshal` (encode.go): the kept fields, each with its
    parsed tag, are put in ascending `fromPos` order before they are written. */
module FieldOrder {
  import opened FieldTag

  /** A field kept for output together with its parsed tag (encode.go's
      `tagWithFieldNumber`; the field itself stands for its number). */
  datatype Entry<F> = Entry(tag: Tag, field: F)

  predicate Sorted<F>(s: seq<Entry<F>>)
  {
    forall i, j | 0 <= i < j < |s| :: s[i].tag.fromPos <= s[j].tag.fromPos
  }

  /** No two entries start at the same position. */
  predicate DistinctStarts<F>(s: seq<Entry<F>>)
  {
    forall i, j | 0 <= i < j < |s| :: s[i].tag.fromPos != s[j].tag.fromPos
  }

  /** `x` placed before the first entry that does not start earlier. */
  function Insert<F(==)>(x: Entry<F>, s: seq<Entry<F>>): (r: seq<Entry<F>>)
    ensures multiset(r) == multiset(s) + multiset{x}
    ensures |r| == |s| + 1
  {
    if |s| == 0 then [x]
    else if x.tag.fromPos <= s[0].tag.fromPos then [x] + s
    else
      assert s == [s[0]] + s[1..];
      [s[0]] + Insert(x, s[1..])
  }

  lemma {:induction false} InsertSorted<F>(x: Entry<F>, s: seq<Entry<F>>)
    requires Sorted(s)
    ensures Sorted(Insert(x, s))
  {
    if |s| > 0 && x.tag.fromPos > s[0].tag.fromPos {
      InsertSorted(x, s[1..]);
      var r := Insert(x, s[1..]);
      forall j | 0 <= j < |r|
        ensures s[0].tag.fromPos <= r[j].tag.fromPos
      {
        assert r[j] in multiset(r);
        assert r[j] == x || r[j] in multiset(s[1..]);
        if r[j] != x {
          var k :| 0 <= k < |s[1..]| && s[1..][k] == r[j];
          assert s[k + 1] == r[j];
        }
      }
    }
  }

  /** `sort.Slice` by `fromPos`, as a stable insertion sort: `sort.Slice` itself
      makes no stability promise, which `SortedPermutationUnique` shows does not
      matter when the starts are distinct. */
  function SortByFrom<F(==)>(s: seq<Entry<F>>): (r: seq<Entry<F>>)
    ensures multiset(r) == multiset(s)
    ensures |r| == |s|
  {
    if |s| == 0 then []
    else
      assert s == [s[0]] + s[1..];
      Insert(s[0], SortByFrom(s[1..]))
  }

  /** The sort yields the entries in ascending `fromPos` order. */
  lemma {:induction false} SortByFromSorted<F>(s: seq<Entry<F>>)
    ensures Sorted(SortByFrom(s))
  {
    if |s| > 0 {
      SortByFromSorted(s[1..]);
      InsertSorted(s[0], SortByFrom(s[1..]));
    }
  }

  lemma {:induction false} InsertDistinct<F>(x: Entry<F>, s: seq<Entry<F>>)
    requires DistinctStarts(s)
    requires forall y | y in s :: y.tag.fromPos != x.tag.fromPos
    ensures DistinctStarts(Insert(x, s))
  {
    if |s| > 0 && x.tag.fromPos > s[0].tag.fromPos {
      InsertDistinct(x, s[1..]);
      var r := Insert(x, s[1..]);
      forall j | 0 <= j < |r|
        ensures s[0].tag.fromPos != r[j].tag.fromPos
      {
        assert r[j] in multiset(r);
        assert r[j] == x || r[j] in multiset(s[1..]);
        if r[j] != x {
          var k :| 0 <= k < |s[1..]| && s[1..][k] == r[j];
          assert s[k + 1] == r[j];
        }
      }
    }
  }

  /** Sorting keeps the starts distinct. */
  lemma {:induction false} SortByFromDistinct<F>(s: seq<Entry<F>>)
    requires DistinctStarts(s)
    ensures DistinctStarts(SortByFrom(s))
  {
    if |s| > 0 {
      SortByFromDistinct(s[1..]);
      forall y | y in SortByFrom(s[1..])
        ensures y.tag.fromPos != s[0].tag.fromPos
      {
        assert y in multiset(SortByFrom(s[1..]));
        var k :| 0 <= k < |s[1..]| && s[1..][k] == y;
        assert s[k + 1] == y;
      }
      InsertDistinct(s[0], SortByFrom(s[1..]));
    }
  }

  /** With distinct starts there is only one sorted arrangement of a multiset
      of entries, so the order the fields were declared in, and the order an
      unstable sort leaves equal keys in, cannot change the result. */
  lemma {:induction false} SortedPermutationUnique<F>(a: seq<Entry<F>>, b: seq<Entry<F>>)
    requires Sorted(a) && DistinctStarts(a)
    requires Sorted(b)
    requires multiset(a) == multiset(b)
    ensures a == b
    decreases |a|
  {
    if |a| == 0 {
      assert |b| == |multiset(b)| == 0;
    } else {
      SortedHeadsAgree(a, b);
      TailsSameEntries(a, b);
      SortedPermutationUnique(a[1..], b[1..]);
      assert a == [a[0]] + a[1..];
      assert b == [b[0]] + b[1..];
    }
  }

  /** Two sorted arrangements of the same non-empty multiset, the first with
      distinct starts, begin with the same entry. */
  lemma SortedHeadsAgree<F>(a: seq<Entry<F>>, b: seq<Entry<F>>)
    requires |a| > 0
    requires Sorted(a) && DistinctStarts(a)
    requires Sorted(b)
    requires multiset(a) == multiset(b)
    ensures |b| == |a| && b[0] == a[0]
  {
    assert |b| == |multiset(b)| == |a|;
    assert b[0] in multiset(a);
    var i :| 0 <= i < |a| && a[i] == b[0];
    assert a[0] in multiset(b);
    var j :| 0 <= j < |b| && b[j] == a[0];
    assert a[0].tag.fromPos <= a[i].tag.fromPos == b[0].tag.fromPos <= b[j].tag.fromPos == a[0].tag.fromPos;
  }

  /** Removing the same first entry from two arrangements of one multiset
      leaves arrangements of one multiset. */
  lemma TailsSameEntries<F>(a: seq<Entry<F>>, b: seq<Entry<F>>)
    requires |a| > 0 && |b| > 0 && a[0] == b[0]
    requires multiset(a) == multiset(b)
    ensures multiset(a[1..]) == multiset(b[1..])
  {
    assert a == [a[0]] + a[1..];
    assert b == [b[0]] + b[1..];
    assert multiset(a[1..]) == multiset(a) - multiset{a[0]};
    assert multiset(b[1..]) == multiset(b) - multiset{a[0]};
  }

  /** Two sortings of arrangements of the same entries agree when the starts are distinct. */
  lemma SortByFromIndependent<F>(s: seq<Entry<F>>, t: seq<Entry<F>>)
    requires multiset(s) == multiset(t)
    requires DistinctStarts(s)
    ensures SortByFrom(s) == SortByFrom(t)
  {
    SortByFromSorted(s);
    SortByFromSorted(t);
    SortByFromDistinct(s);
    SortedPermutationUnique(SortByFrom(s), SortByFrom(t));
  }
}
