/** Sequence helpers shared by every screen: the JavaScript array idioms the
    source relies on (filter, find, reduce, join, includes) stated once, with
    the facts the rest of the model needs about them. */
module Seqs {

  datatype Option<T> = None | Some(value: T)

  /** `xs.filter(p)`: the elements satisfying `p`, in their original order. */
  function Filter<T(==,!new)>(xs: seq<T>, p: T -> bool): (r: seq<T>)
    ensures |r| <= |xs|
    ensures forall x :: x in r <==> x in xs && p(x)
  {
    if xs == [] then [] else (if p(xs[0]) then [xs[0]] else []) + Filter(xs[1..], p)
  }

  /** Filtering distributes over concatenation: the order of the survivors is kept. */
  lemma {:induction false} FilterConcat<T(!new)>(a: seq<T>, b: seq<T>, p: T -> bool)
    ensures Filter(a + b, p) == Filter(a, p) + Filter(b, p)
  {
    if a == [] {
      assert a + b == b;
    } else {
      assert (a + b)[1..] == a[1..] + b;
      FilterConcat(a[1..], b, p);
    }
  }

  /** A filter that every element passes returns its input unchanged. */
  lemma {:induction false} FilterKeepsAll<T(!new)>(xs: seq<T>, p: T -> bool)
    requires forall x :: x in xs ==> p(x)
    ensures Filter(xs, p) == xs
  {
    if xs != [] {
      FilterKeepsAll(xs[1..], p);
    }
  }

  /** A filter that no element passes returns nothing. */
  lemma {:induction false} FilterNone<T(!new)>(xs: seq<T>, p: T -> bool)
    requires forall i :: 0 <= i < |xs| ==> !p(xs[i])
    ensures Filter(xs, p) == []
  {
    if xs != [] {
      FilterNone(xs[1..], p);
    }
  }

  /** Two predicates that agree on the elements give the same filter. */
  lemma {:induction false} FilterCongruent<T(!new)>(xs: seq<T>, p: T -> bool, q: T -> bool)
    requires forall x :: x in xs ==> p(x) == q(x)
    ensures Filter(xs, p) == Filter(xs, q)
  {
    if xs != [] {
      FilterCongruent(xs[1..], p, q);
    }
  }

  /** Filtering twice is filtering once by the conjunction. */
  lemma {:induction false} FilterFilter<T(!new)>(xs: seq<T>, p: T -> bool, q: T -> bool, pq: T -> bool)
    requires forall x :: x in xs ==> pq(x) == (p(x) && q(x))
    ensures Filter(Filter(xs, p), q) == Filter(xs, pq)
  {
    if xs != [] {
      FilterFilter(xs[1..], p, q, pq);
      FilterConcat(if p(xs[0]) then [xs[0]] else [], Filter(xs[1..], p), q);
    }
  }

  /** Filtering keeps the multiplicity of the elements it keeps. */
  lemma {:induction false} FilterMultiset<T(!new)>(xs: seq<T>, p: T -> bool)
    ensures forall x :: multiset(Filter(xs, p))[x] == if p(x) then multiset(xs)[x] else 0
  {
    if xs != [] {
      FilterMultiset(xs[1..], p);
      assert xs == [xs[0]] + xs[1..];
    }
  }

  /** `xs.filter(y => y !== x)`: every occurrence of `x` removed, the rest in order. */
  function Without<T(==,!new)>(xs: seq<T>, x: T): (r: seq<T>)
    ensures forall y :: y in r <==> y in xs && y != x
    ensures multiset(r) == multiset(xs)[x := 0]
    ensures |r| == |xs| - multiset(xs)[x]
  {
    if xs == [] then []
    else
      assert xs == [xs[0]] + xs[1..];
      (if xs[0] == x then [] else [xs[0]]) + Without(xs[1..], x)
  }

  lemma {:induction false} WithoutConcat<T(!new)>(a: seq<T>, b: seq<T>, x: T)
    ensures Without(a + b, x) == Without(a, x) + Without(b, x)
  {
    if a == [] {
      assert a + b == b;
    } else {
      assert (a + b)[1..] == a[1..] + b;
      WithoutConcat(a[1..], b, x);
    }
  }

  /** Removing an element that is absent changes nothing. */
  lemma {:induction false} WithoutAbsent<T(!new)>(xs: seq<T>, x: T)
    requires x !in xs
    ensures Without(xs, x) == xs
  {
    if xs != [] {
      WithoutAbsent(xs[1..], x);
    }
  }

  /** Removal is idempotent, and removing `x` forgets a trailing `x`. */
  lemma WithoutAppended<T(!new)>(xs: seq<T>, x: T)
    ensures Without(Without(xs, x), x) == Without(xs, x)
    ensures Without(xs + [x], x) == Without(xs, x)
  {
    WithoutAbsent(Without(xs, x), x);
    WithoutConcat(xs, [x], x);
    assert Without([x], x) == [];
  }

  /** No value occurs twice. */
  ghost predicate NoDuplicates<T(!new)>(xs: seq<T>) {
    forall x :: multiset(xs)[x] <= 1
  }

  /** The number of distinct values is at most the length, with equality
      exactly when no value repeats (the size of `new Set(xs)`). */
  lemma {:induction false} DistinctCount<T(!new)>(xs: seq<T>)
    ensures |set x | x in xs| <= |xs|
    ensures |set x | x in xs| == |xs| <==> NoDuplicates(xs)
  {
    if xs == [] {
      assert (set x | x in xs) == {};
    } else {
      var rest := xs[1..];
      assert xs == [xs[0]] + rest;
      DistinctCount(rest);
      var s, s' := set x | x in xs, set x | x in rest;
      assert s == {xs[0]} + s';
      if xs[0] in rest {
        assert s == s';
        assert multiset(xs)[xs[0]] >= 2;
      } else {
        assert |s| == |s'| + 1;
        assert multiset(xs)[xs[0]] == 1;
        assert NoDuplicates(xs) <==> NoDuplicates(rest) by {
          forall y ensures multiset(xs)[y] == multiset(rest)[y] + (if y == xs[0] then 1 else 0) { }
        }
      }
    }
  }

  /** `xs.reduce((acc, x) => acc + f(x), 0)`. */
  function SumOf<T>(xs: seq<T>, f: T -> int): int {
    if xs == [] then 0 else f(xs[0]) + SumOf(xs[1..], f)
  }

  lemma {:induction false} SumOfConcat<T>(a: seq<T>, b: seq<T>, f: T -> int)
    ensures SumOf(a + b, f) == SumOf(a, f) + SumOf(b, f)
  {
    if a == [] {
      assert a + b == b;
    } else {
      assert (a + b)[1..] == a[1..] + b;
      SumOfConcat(a[1..], b, f);
    }
  }

  /** The index of the first element satisfying `p`, or `|xs|` when there is
      none: `Array.prototype.find` is the element at that index. */
  function FindIndex<T>(xs: seq<T>, p: T -> bool): (i: nat)
    ensures i <= |xs|
    ensures i < |xs| ==> p(xs[i])
    ensures forall j :: 0 <= j < i ==> !p(xs[j])
  {
    if xs == [] then 0 else if p(xs[0]) then 0 else 1 + FindIndex(xs[1..], p)
  }

  /** `xs.join(sep)`: empty for no parts, a lone part as it is, and led by
      the first part; `JoinAppend` gives each further part. */
  function Join(xs: seq<string>, sep: string): (s: string)
    ensures xs == [] ==> s == ""
    ensures |xs| == 1 ==> s == xs[0]
    ensures xs != [] ==> StartsWith(s, xs[0])
  {
    if xs == [] then "" else if |xs| == 1 then xs[0] else xs[0] + sep + Join(xs[1..], sep)
  }

  /** Joining one more part puts the separator and that part at the end, so
      the parts appear in order, each separated by `sep`. */
  lemma {:induction false} JoinAppend(xs: seq<string>, x: string, sep: string)
    requires xs != []
    ensures Join(xs + [x], sep) == Join(xs, sep) + sep + x
  {
    if |xs| == 1 {
      assert (xs + [x])[1..] == [x];
    } else {
      assert (xs + [x])[1..] == xs[1..] + [x];
      JoinAppend(xs[1..], x, sep);
    }
  }

  predicate StartsWith<T(==,!new)>(s: seq<T>, t: seq<T>) {
    |t| <= |s| && s[..|t|] == t
  }

  /** `s.includes(t)`: `t` occurs as a contiguous run inside `s`. */
  predicate Includes<T(==,!new)>(s: seq<T>, t: seq<T>)
    decreases |s|
  {
    StartsWith(s, t) || (s != [] && Includes(s[1..], t))
  }

  /** `Includes` is exactly "occurs at some offset". */
  lemma {:induction false} IncludesAt<T(!new)>(s: seq<T>, t: seq<T>, i: nat)
    requires i + |t| <= |s| && s[i..i + |t|] == t
    ensures Includes(s, t)
  {
    if i > 0 {
      assert s[1..][i - 1..i - 1 + |t|] == s[i..i + |t|];
      IncludesAt(s[1..], t, i - 1);
    }
  }

  /** `lower(text).includes(lower(term))`: the case-insensitive search every
      list screen applies; `lower` stands for `toLowerCase`. */
  predicate Matches(text: string, term: string, lower: string -> string) {
    Includes(lower(text), lower(term))
  }

  /** `xs.filter(x => key(x).toLowerCase().includes(term.toLowerCase()))`. */
  function Search<T(==,!new)>(xs: seq<T>, key: T -> string, term: string, lower: string -> string): (r: seq<T>)
    ensures forall x :: x in r <==> x in xs && Matches(key(x), term, lower)
  {
    Filter(xs, x => Matches(key(x), term, lower))
  }

  /** A search whose term lower-cases to the empty string keeps everything, in order. */
  lemma SearchEmptyTerm<T(!new)>(xs: seq<T>, key: T -> string, term: string, lower: string -> string)
    requires lower(term) == []
    ensures Search(xs, key, term, lower) == xs
  {
    forall x | x in xs ensures Matches(key(x), term, lower) {
      assert StartsWith(lower(key(x)), lower(term));
    }
    FilterKeepsAll(xs, x => Matches(key(x), term, lower));
  }

  /** Toggle membership: remove every occurrence when present, append at
      the end otherwise (`Set` delete/add on an insertion-ordered set, or
      `includes ? filter : [...xs, x]` on an array). */
  function Toggle<T(==,!new)>(ids: seq<T>, x: T): (r: seq<T>)
    ensures forall y :: y != x ==> (y in r <==> y in ids)
    ensures x in r <==> x !in ids
  {
    if x in ids then Without(ids, x) else ids + [x]
  }

  /** A toggle keeps the selection free of repeats. */
  lemma ToggleKeepsDistinct<T(!new)>(ids: seq<T>, x: T)
    requires NoDuplicates(ids)
    ensures NoDuplicates(Toggle(ids, x))
  {
    assert multiset(ids + [x]) == multiset(ids) + multiset{x};
  }

  /** Toggling the same id twice restores the selected set; when the id was
      not selected it restores the exact sequence. */
  lemma ToggleTwice<T(!new)>(ids: seq<T>, x: T)
    ensures forall y :: y in Toggle(Toggle(ids, x), x) <==> y in ids
    ensures x !in ids ==> Toggle(Toggle(ids, x), x) == ids
  {
    if x !in ids {
      WithoutAppended(ids, x);
      WithoutAbsent(ids, x);
    }
  }
}
