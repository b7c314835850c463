/**
  Python list idioms used by the pipeline: comprehension filters, `sorted`
  with a string key (which is stable), de-duplication, and a `dict` built
  from key/value pairs, with the laws that relate them.
 */
module Seqs {
  import opened Strings

  /** `[f(x) for x in s]`. */
  function Map<A, B>(s: seq<A>, f: A -> B): (r: seq<B>)
    ensures |r| == |s|
    ensures forall i :: 0 <= i < |s| ==> r[i] == f(s[i])
  {
    seq(|s|, i requires 0 <= i < |s| => f(s[i]))
  }

  lemma MapCons<A, B>(x: A, t: seq<A>, f: A -> B)
    ensures Map([x] + t, f) == [f(x)] + Map(t, f)
  {
  }

  /** The image of an element is in the mapped sequence. */
  lemma MapHas<A, B>(s: seq<A>, f: A -> B, k: nat)
    requires k < |s|
    ensures f(s[k]) in Map(s, f)
  {
    assert Map(s, f)[k] == f(s[k]);
  }

  /** Whatever is the image of an element is in the mapped sequence. */
  lemma MapHasImage<A, B>(s: seq<A>, f: A -> B, x: B)
    requires exists a :: a in s && x == f(a)
    ensures x in Map(s, f)
  {
    var a :| a in s && x == f(a);
    var k :| 0 <= k < |s| && s[k] == a;
    MapHas(s, f, k);
  }

  /** `a` is an order-preserving subsequence of `b`. */
  predicate IsSubseq<T(==)>(a: seq<T>, b: seq<T>)
    decreases |b|
  {
    a == [] || (b != [] && ((a[0] == b[0] && IsSubseq(a[1..], b[1..])) || IsSubseq(a, b[1..])))
  }

  /** `[x for x in s if keep(x)]`. */
  function Filter<T(!new)>(s: seq<T>, keep: T -> bool): (r: seq<T>)
    ensures |r| <= |s|
    ensures forall x :: x in r <==> x in s && keep(x)
  {
    if s == [] then []
    else (if keep(s[0]) then [s[0]] else []) + Filter(s[1..], keep)
  }

  lemma {:induction false} FilterIsSubseq<T(!new)>(s: seq<T>, keep: T -> bool)
    ensures IsSubseq(Filter(s, keep), s)
  {
    if s != [] {
      FilterIsSubseq(s[1..], keep);
      var rest := Filter(s[1..], keep);
      if keep(s[0]) {
        assert ([s[0]] + rest)[1..] == rest;
      } else {
        assert [] + rest == rest;
      }
    }
  }

  /** A filter drops exactly the rejected elements: it keeps every element
      that passes, as many times as it occurs. */
  lemma {:induction false} FilterMultiset<T(!new)>(s: seq<T>, keep: T -> bool, x: T)
    ensures multiset(Filter(s, keep))[x] == if keep(x) then multiset(s)[x] else 0
  {
    if s != [] {
      FilterMultiset(s[1..], keep, x);
      assert s == [s[0]] + s[1..];
    }
  }

  /** Filters that agree on the elements agree on the result. */
  lemma {:induction false} FilterCongruent<T(!new)>(s: seq<T>, f: T -> bool, g: T -> bool)
    requires forall x :: x in s ==> f(x) == g(x)
    ensures Filter(s, f) == Filter(s, g)
  {
    if s != [] {
      FilterCongruent(s[1..], f, g);
    }
  }

  lemma {:induction false} FilterConcat<T(!new)>(a: seq<T>, b: seq<T>, keep: T -> bool)
    ensures Filter(a + b, keep) == Filter(a, keep) + Filter(b, keep)
  {
    if a == [] {
      assert a + b == b;
    } else {
      assert (a + b)[1..] == a[1..] + b;
      FilterConcat(a[1..], b, keep);
    }
  }

  /** The elements of a sequence carry no repetitions. */
  predicate NoDups<T(==)>(s: seq<T>) {
    forall i, j :: 0 <= i < j < |s| ==> s[i] != s[j]
  }

  /** Sorted non-decreasingly by a string key under Python's ordering. */
  predicate SortedBy<T>(s: seq<T>, key: T -> string) {
    forall i, j :: 0 <= i < j < |s| ==> LexLe(key(s[i]), key(s[j]))
  }

  // ---------------------------------------------------------------------------
  // `sorted(s, key=key)`: a stable insertion sort

  /** Puts `x` before the first element whose key is not smaller than its own. */
  function Insert<T>(x: T, t: seq<T>, key: T -> string): (r: seq<T>)
    ensures multiset(r) == multiset(t) + multiset{x}
    ensures |r| == |t| + 1
  {
    if t == [] then [x]
    else if LexLe(key(x), key(t[0])) then [x] + t
    else
      assert t == [t[0]] + t[1..];
      [t[0]] + Insert(x, t[1..], key)
  }

  /** Python's `sorted(s, key=key)`. */
  function SortBy<T>(s: seq<T>, key: T -> string): (r: seq<T>)
    ensures multiset(r) == multiset(s)
    ensures |r| == |s|
  {
    if s == [] then []
    else
      assert s == [s[0]] + s[1..];
      Insert(s[0], SortBy(s[1..], key), key)
  }

  lemma {:induction false} InsertSorted<T>(x: T, t: seq<T>, key: T -> string)
    requires SortedBy(t, key)
    ensures SortedBy(Insert(x, t, key), key)
  {
    if t != [] {
      if LexLe(key(x), key(t[0])) {
        var r := [x] + t;
        forall i, j | 0 <= i < j < |r|
          ensures LexLe(key(r[i]), key(r[j]))
        {
          if i == 0 && j > 1 {
            LexLeTransitive(key(x), key(t[0]), key(t[j - 1]));
          }
        }
      } else {
        var rest := Insert(x, t[1..], key);
        InsertSorted(x, t[1..], key);
        LexLeTotal(key(x), key(t[0]));
        var r := [t[0]] + rest;
        forall i, j | 0 <= i < j < |r|
          ensures LexLe(key(r[i]), key(r[j]))
        {
          if i == 0 {
            var y := r[j];
            assert y in multiset(rest);
            if y != x {
              assert y in multiset(t[1..]);
              var k :| 0 <= k < |t[1..]| && t[1..][k] == y;
              assert t[k + 1] == y;
            }
          }
        }
      }
    }
  }

  /** `sorted` orders its result by the key. */
  lemma {:induction false} SortBySorted<T>(s: seq<T>, key: T -> string)
    ensures SortedBy(SortBy(s, key), key)
  {
    if s != [] {
      SortBySorted(s[1..], key);
      InsertSorted(s[0], SortBy(s[1..], key), key);
    }
  }

  lemma FilterCons<T(!new)>(x: T, t: seq<T>, keep: T -> bool)
    ensures Filter([x] + t, keep) == (if keep(x) then [x] else []) + Filter(t, keep)
  {
    assert ([x] + t)[1..] == t;
  }

  /** Inserting `x` changes the elements of key `k` only by putting `x` first. */
  lemma {:induction false} InsertStable<T(!new)>(x: T, t: seq<T>, key: T -> string, k: string)
    ensures Filter(Insert(x, t, key), y => key(y) == k)
         == (if key(x) == k then [x] else []) + Filter(t, y => key(y) == k)
  {
    var p := y => key(y) == k;
    if t == [] {
    } else if LexLe(key(x), key(t[0])) {
      FilterCons(x, t, p);
    } else {
      LexLeReflexive(key(x));
      InsertStable(x, t[1..], key, k);
      var rest := Insert(x, t[1..], key);
      FilterCons(t[0], rest, p);
      FilterCons(t[0], t[1..], p);
      assert [t[0]] + t[1..] == t;
    }
  }

  /** `sorted` is stable: the elements sharing any one key keep their input
      order. */
  lemma {:induction false} SortByStable<T(!new)>(s: seq<T>, key: T -> string, k: string)
    ensures Filter(SortBy(s, key), y => key(y) == k) == Filter(s, y => key(y) == k)
  {
    if s != [] {
      SortByStable(s[1..], key, k);
      InsertStable(s[0], SortBy(s[1..], key), key, k);
    }
  }

  /** `SortByStable` for any filter that selects the elements of key `k`. */
  lemma SortByStableFor<T(!new)>(s: seq<T>, key: T -> string, k: string, keep: T -> bool)
    requires forall y :: keep(y) == (key(y) == k)
    ensures Filter(SortBy(s, key), keep) == Filter(s, keep)
  {
    var same := y => key(y) == k;
    SortByStable(s, key, k);
    FilterCongruent(SortBy(s, key), keep, same);
    FilterCongruent(s, keep, same);
  }

  /** Filtering with a test every element passes changes nothing. */
  lemma {:induction false} FilterAll<T(!new)>(s: seq<T>, keep: T -> bool)
    requires forall x :: x in s ==> keep(x)
    ensures Filter(s, keep) == s
  {
    if s != [] {
      FilterAll(s[1..], keep);
      assert s == [s[0]] + s[1..];
    }
  }

  /** Filtering keeps a sequence free of duplicates. */
  lemma {:induction false} FilterNoDups<T(!new)>(s: seq<T>, keep: T -> bool)
    requires NoDups(s)
    ensures NoDups(Filter(s, keep))
  {
    if s != [] {
      FilterCons(s[0], s[1..], keep);
      assert s == [s[0]] + s[1..];
      assert NoDups(s[1..]) by {
        forall i, j | 0 <= i < j < |s[1..]|
          ensures s[1..][i] != s[1..][j]
        {
          assert s[1..][i] == s[i + 1] && s[1..][j] == s[j + 1];
        }
      }
      FilterNoDups(s[1..], keep);
      assert s[0] !in s[1..] by {
        forall k | 0 <= k < |s[1..]|
          ensures s[1..][k] != s[0]
        {
          assert s[1..][k] == s[k + 1];
        }
      }
    }
  }

  /** Two duplicate-free sequences with no common element concatenate to a
      duplicate-free one. */
  lemma NoDupsConcat<T>(a: seq<T>, b: seq<T>)
    requires NoDups(a) && NoDups(b)
    requires forall x :: x in b ==> x !in a
    ensures NoDups(a + b)
  {
    forall i, j | 0 <= i < j < |a + b|
      ensures (a + b)[i] != (a + b)[j]
    {
      if j >= |a| && i < |a| {
        assert (a + b)[j] == b[j - |a|] && b[j - |a|] in b;
      }
    }
  }

  /** `list.remove(x)`: drops the first element equal to `x`; the list is
      unchanged when there is none (where Python raises). */
  function RemoveFirst<T(==)>(s: seq<T>, x: T): (r: seq<T>)
    ensures x in s ==> multiset(r) == multiset(s) - multiset{x} && |r| == |s| - 1
    ensures x !in s ==> r == s
  {
    if s == [] then []
    else if s[0] == x then
      assert s == [s[0]] + s[1..];
      s[1..]
    else
      assert s == [s[0]] + s[1..];
      [s[0]] + RemoveFirst(s[1..], x)
  }

  // ---------------------------------------------------------------------------
  // De-duplication keeping first occurrences

  /** The elements of `s`, each at its first occurrence. */
  function Dedup<T(==,!new)>(s: seq<T>): (r: seq<T>)
    ensures forall x :: x in r <==> x in s
    ensures |r| <= |s|
    decreases |s|
  {
    if s == [] then []
    else
      var d := Dedup(s[..|s| - 1]);
      assert s == s[..|s| - 1] + [s[|s| - 1]];
      if s[|s| - 1] in d then d else d + [s[|s| - 1]]
  }

  lemma {:induction false} DedupNoDups<T(!new)>(s: seq<T>)
    ensures NoDups(Dedup(s))
    decreases |s|
  {
    if s != [] {
      DedupNoDups(s[..|s| - 1]);
    }
  }

  /** De-duplicating a repetition-free sequence changes nothing. */
  lemma {:induction false} DedupOfNoDups<T(!new)>(s: seq<T>)
    requires NoDups(s)
    ensures Dedup(s) == s
    decreases |s|
  {
    if s != [] {
      var init := s[..|s| - 1];
      DedupOfNoDups(init);
      assert s[|s| - 1] !in init;
      assert s == init + [s[|s| - 1]];
    }
  }

  /** De-duplication is idempotent. */
  lemma DedupIdempotent<T(!new)>(s: seq<T>)
    ensures Dedup(Dedup(s)) == Dedup(s)
  {
    DedupNoDups(s);
    DedupOfNoDups(Dedup(s));
  }

  /** De-duplicating a sorted sequence leaves it sorted. */
  lemma {:induction false} DedupSorted<T(!new)>(s: seq<T>, key: T -> string)
    requires SortedBy(s, key)
    ensures SortedBy(Dedup(s), key)
    decreases |s|
  {
    if s != [] {
      var init := s[..|s| - 1];
      var last := s[|s| - 1];
      assert SortedBy(init, key);
      DedupSorted(init, key);
      var d := Dedup(init);
      if last !in d {
        var r := d + [last];
        forall i, j | 0 <= i < j < |r|
          ensures LexLe(key(r[i]), key(r[j]))
        {
          if j == |r| - 1 {
            assert r[i] in init;
            var k :| 0 <= k < |init| && init[k] == r[i];
          }
        }
      }
    }
  }

  // ---------------------------------------------------------------------------
  // `dict(pairs)` and `.values()`

  /** Keys of an association list, in order. */
  function Keys<K, V>(d: seq<(K, V)>): (r: seq<K>)
    ensures |r| == |d|
  {
    Map(d, (kv: (K, V)) => kv.0)
  }

  function Values<K, V>(d: seq<(K, V)>): (r: seq<V>)
    ensures |r| == |d|
  {
    Map(d, (kv: (K, V)) => kv.1)
  }

  /** Position of the first `k` in `s`, if any. */
  function IndexOf<T(==)>(s: seq<T>, k: T): (r: Option<nat>)
    ensures r.Some? ==> r.value < |s| && s[r.value] == k
    ensures r.None? ==> k !in s
  {
    if s == [] then None
    else if s[0] == k then Some(0)
    else match IndexOf(s[1..], k)
      case None => None
      case Some(i) => Some(i + 1)
  }

  /** `d[k] = v` on a Python dict kept as an insertion-ordered association
      list: an existing key keeps its position and takes the new value; a new
      key goes last. */
  function DictPut<K(==), V>(d: seq<(K, V)>, k: K, v: V): (r: seq<(K, V)>)
    requires NoDups(Keys(d))
    ensures NoDups(Keys(r))
    ensures k in Keys(d) ==> Keys(r) == Keys(d)
    ensures k !in Keys(d) ==> Keys(r) == Keys(d) + [k]
    ensures forall i :: 0 <= i < |r| && r[i].0 == k ==> r[i].1 == v
    ensures forall i :: 0 <= i < |r| && r[i].0 != k ==> i < |d| && r[i] == d[i]
  {
    match IndexOf(Keys(d), k)
    case Some(i) =>
      var r := d[i := (k, v)];
      assert Keys(r) == Keys(d);
      r
    case None =>
      var r := d + [(k, v)];
      assert Keys(r) == Keys(d) + [k];
      r
  }

  /** `dict(pairs)`. */
  function DictOf<K(==), V>(pairs: seq<(K, V)>): (r: seq<(K, V)>)
    ensures NoDups(Keys(r))
    ensures |r| <= |pairs| && (pairs != [] ==> r != [])
    decreases |pairs|
  {
    if pairs == [] then []
    else DictPut(DictOf(pairs[..|pairs| - 1]), pairs[|pairs| - 1].0, pairs[|pairs| - 1].1)
  }

  /** Every value of an association list is `f` of its key. */
  ghost predicate ValuesFollow<K, V>(d: seq<(K, V)>, f: K -> V) {
    forall i :: 0 <= i < |d| ==> d[i].1 == f(d[i].0)
  }

  /** When every value is a function of its key, `dict(pairs)` holds the
      de-duplicated keys, each with its value. */
  lemma {:induction false} DictOfKeys<K(!new), V>(pairs: seq<(K, V)>, f: K -> V)
    requires ValuesFollow(pairs, f)
    ensures Keys(DictOf(pairs)) == Dedup(Keys(pairs))
    ensures ValuesFollow(DictOf(pairs), f)
    decreases |pairs|
  {
    if pairs != [] {
      var init := pairs[..|pairs| - 1];
      var last := pairs[|pairs| - 1];
      assert pairs == init + [last];
      DictOfKeys(init, f);
      KeysSnoc(init, last);
      DedupSnoc(Keys(init), last.0);
      DictPutFollows(DictOf(init), last.0, last.1, f);
    }
  }

  lemma KeysSnoc<K, V>(d: seq<(K, V)>, kv: (K, V))
    ensures Keys(d + [kv]) == Keys(d) + [kv.0]
  {
  }

  /** Putting `f(k)` under `k` keeps every value a function of its key. */
  lemma DictPutFollows<K, V>(d: seq<(K, V)>, k: K, v: V, f: K -> V)
    requires NoDups(Keys(d)) && ValuesFollow(d, f) && v == f(k)
    ensures ValuesFollow(DictPut(d, k, v), f)
  {
  }

  /** When every value is a function of its key, `dict(pairs).values()` is
      that function applied to the de-duplicated keys. */
  lemma DictOfFunctionalValues<K(!new), V>(pairs: seq<(K, V)>, f: K -> V)
    requires ValuesFollow(pairs, f)
    ensures Values(DictOf(pairs)) == Map(Dedup(Keys(pairs)), f)
  {
    DictOfKeys(pairs, f);
    var d := DictOf(pairs);
    forall i | 0 <= i < |d|
      ensures Values(d)[i] == Map(Dedup(Keys(pairs)), f)[i]
    {
      assert Keys(d)[i] == d[i].0;
    }
  }

  // ---------------------------------------------------------------------------
  // How the operations above commute

  /** Sorting pairs by a key of their first component is sorting the first
      components and pairing afterwards. */
  lemma {:induction false} InsertMap<A, B>(x: A, t: seq<A>, f: A -> B,
                                          keyA: A -> string, keyB: B -> string)
    requires forall a :: keyB(f(a)) == keyA(a)
    ensures Insert(f(x), Map(t, f), keyB) == Map(Insert(x, t, keyA), f)
  {
    if t != [] {
      var head := t[0];
      var tail := t[1..];
      assert t == [head] + tail;
      MapCons(head, tail, f);
      InsertCons(f(x), f(head), Map(tail, f), keyB);
      InsertCons(x, head, tail, keyA);
      if LexLe(keyA(x), keyA(head)) {
        MapCons(x, t, f);
      } else {
        InsertMap(x, tail, f, keyA, keyB);
        MapCons(head, Insert(x, tail, keyA), f);
      }
    }
  }

  /** One step of `Insert` on a sequence with a first element. */
  lemma InsertCons<T>(x: T, head: T, tail: seq<T>, key: T -> string)
    ensures Insert(x, [head] + tail, key)
            == if LexLe(key(x), key(head)) then [x] + ([head] + tail)
               else [head] + Insert(x, tail, key)
  {
    assert ([head] + tail)[1..] == tail;
  }

  lemma {:induction false} SortByMap<A, B>(s: seq<A>, f: A -> B,
                                          keyA: A -> string, keyB: B -> string)
    requires forall a :: keyB(f(a)) == keyA(a)
    ensures SortBy(Map(s, f), keyB) == Map(SortBy(s, keyA), f)
  {
    if s != [] {
      SortByMap(s[1..], f, keyA, keyB);
      assert Map(s, f)[1..] == Map(s[1..], f);
      InsertMap(s[0], SortBy(s[1..], keyA), f, keyA, keyB);
    }
  }

  lemma DedupSnoc<T(!new)>(s: seq<T>, x: T)
    ensures Dedup(s + [x]) == if x in s then Dedup(s) else Dedup(s) + [x]
  {
    assert (s + [x])[..|s|] == s;
  }

  lemma FilterSnoc<T(!new)>(s: seq<T>, x: T, keep: T -> bool)
    ensures Filter(s + [x], keep) == Filter(s, keep) + (if keep(x) then [x] else [])
  {
    FilterConcat(s, [x], keep);
    assert [x][1..] == [];
  }

  /** Filtering after de-duplication is de-duplicating after filtering. */
  lemma {:induction false} FilterDedup<T(!new)>(s: seq<T>, keep: T -> bool)
    ensures Filter(Dedup(s), keep) == Dedup(Filter(s, keep))
    decreases |s|
  {
    if s != [] {
      var init := s[..|s| - 1];
      var last := s[|s| - 1];
      FilterDedup(init, keep);
      assert s == init + [last];
      FilterSnoc(init, last, keep);
      DedupSnoc(init, last);
      var fi := Filter(init, keep);
      var d := Dedup(init);
      if keep(last) {
        assert Filter(s, keep) == fi + [last];
        DedupSnoc(fi, last);
        if last in init {
          assert last in fi;
          calc {
            Filter(Dedup(s), keep);
            Filter(d, keep);
            Dedup(fi);
            Dedup(fi + [last]);
          }
        } else {
          FilterSnoc(d, last, keep);
          calc {
            Filter(Dedup(s), keep);
            Filter(d + [last], keep);
            Filter(d, keep) + [last];
            Dedup(fi) + [last];
            Dedup(fi + [last]);
          }
        }
      } else {
        assert Filter(s, keep) == fi;
        if last !in init {
          FilterSnoc(d, last, keep);
        }
      }
    }
  }

  // ---------------------------------------------------------------------------
  // Sequences of one or two elements

  lemma FilterOne<T(!new)>(a: T, keep: T -> bool)
    requires keep(a)
    ensures Filter([a], keep) == [a]
  {
    assert [a][1..] == [];
  }

  lemma MapOne<A, B>(a: A, f: A -> B)
    ensures Map([a], f) == [f(a)]
  {
  }

  lemma MapPair<A, B>(a: A, b: A, f: A -> B)
    ensures Map([a, b], f) == [f(a), f(b)]
  {
  }

  lemma DedupOne<T(!new)>(a: T)
    ensures Dedup([a]) == [a]
  {
    assert [a][..0] == [];
  }

  lemma DedupPair<T(!new)>(a: T, b: T)
    requires a != b
    ensures Dedup([a, b]) == [a, b]
  {
    assert [a, b][..1] == [a];
    DedupOne(a);
  }

  // ---------------------------------------------------------------------------
  // A comprehension over the non-null elements whose body may raise

  predicate IsPresent<T>(o: Option<T>) {
    o.Some?
  }

  /** `[f(x) for x in xs if x is not None]`, where `f` may raise (`None`):
      any failure makes the whole comprehension fail. */
  function MapPresent<A, B>(xs: seq<Option<A>>, f: A -> Option<B>): Option<seq<B>> {
    if xs == [] then Some([])
    else
      var rest := MapPresent(xs[1..], f);
      match xs[0]
      case None => rest
      case Some(x) =>
        var y := f(x);
        if y.None? || rest.None? then None
        else Some([y.value] + rest.value)
  }

  /** The comprehension succeeds exactly when `f` succeeds on every
      non-null element. */
  lemma {:induction false} MapPresentDefined<A, B>(xs: seq<Option<A>>, f: A -> Option<B>)
    ensures MapPresent(xs, f).Some? <==> forall i :: 0 <= i < |xs| ==> xs[i].None? || f(xs[i].value).Some?
  {
    if xs != [] {
      var tail := xs[1..];
      MapPresentDefined(tail, f);
      assert forall i :: 1 <= i < |xs| ==> xs[i] == tail[i - 1];
    }
  }

  /** A successful comprehension has one result per non-null element, in
      order, each `f` of that element. */
  lemma {:induction false} MapPresentValues<A(!new), B>(xs: seq<Option<A>>, f: A -> Option<B>)
    requires MapPresent(xs, f).Some?
    ensures var ys := MapPresent(xs, f).value;
            var present := Filter(xs, IsPresent);
            && |ys| == |present| <= |xs|
            && forall k :: 0 <= k < |ys| ==> present[k].Some? && f(present[k].value) == Some(ys[k])
  {
    if xs != [] {
      var tail := xs[1..];
      MapPresentValues(tail, f);
      assert xs == [xs[0]] + tail;
      FilterCons(xs[0], tail, IsPresent);
      var ys := MapPresent(xs, f).value;
      var present := Filter(xs, IsPresent);
      var rest := MapPresent(tail, f).value;
      var restPresent := Filter(tail, IsPresent);
      if xs[0].Some? {
        assert ys == [f(xs[0].value).value] + rest;
        assert present == [xs[0]] + restPresent;
        forall k | 0 <= k < |ys|
          ensures present[k].Some? && f(present[k].value) == Some(ys[k])
        {
          if k > 0 {
            assert ys[k] == rest[k - 1] && present[k] == restPresent[k - 1];
          }
        }
      }
    }
  }
}
