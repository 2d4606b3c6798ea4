/**
 * Python dictionaries with string keys, as the script uses them: a `dict` or an
 * `OrderedDict` is the sequence of its items in iteration order, no key twice.
 */
module OrderedDict {
  import opened StringOrder

  datatype Option<T> = None | Some(value: T)

  predicate DistinctKeys<V>(items: seq<(string, V)>)
  {
    forall i, j :: 0 <= i < j < |items| ==> items[i].0 != items[j].0
  }

  /** A dictionary: its items in iteration (insertion) order. */
  type Dict<V> = d: seq<(string, V)> | DistinctKeys(d) witness []

  function Keys<V>(d: seq<(string, V)>): (ks: seq<string>)
    ensures |ks| == |d| && forall i :: 0 <= i < |d| ==> ks[i] == d[i].0
  {
    seq(|d|, i requires 0 <= i < |d| => d[i].0)
  }

  function KeySet<V>(d: seq<(string, V)>): set<string>
  {
    set i | 0 <= i < |d| :: d[i].0
  }

  /** `d.get(k)`: the value of the first item with key `k`. */
  function Get<V>(d: seq<(string, V)>, k: string): Option<V>
  {
    if |d| == 0 then None
    else if d[0].0 == k then Some(d[0].1)
    else Get(d[1..], k)
  }

  lemma {:induction false} GetNone<V>(d: seq<(string, V)>, k: string)
    ensures Get(d, k) == None <==> forall i :: 0 <= i < |d| ==> d[i].0 != k
  {
    if |d| > 0 {
      GetNone(d[1..], k);
      assert forall i :: 1 <= i < |d| ==> d[i] == d[1..][i - 1];
    }
  }

  /** In a dictionary, looking a key up finds exactly the item that holds it. */
  lemma {:induction false} GetSpec<V>(d: Dict<V>, k: string, v: V)
    ensures Get(d, k) == Some(v) <==> (k, v) in d
  {
    if |d| > 0 {
      GetSpec(d[1..], k, v);
      if (k, v) in d && d[0] != (k, v) {
        var i :| 0 <= i < |d| && d[i] == (k, v);
        assert d[1..][i - 1] == (k, v);
      }
    }
  }

  lemma GetKeySet<V>(d: Dict<V>, k: string)
    ensures Get(d, k).Some? <==> k in KeySet(d)
  {
    GetNone(d, k);
    if k in KeySet(d) {
      var p :| p in d && p.0 == k;
    }
  }

  /** Two dictionaries that answer every lookup alike hold the same items. */
  lemma SameGetSameItems<V>(a: Dict<V>, b: Dict<V>)
    requires forall k :: Get(a, k) == Get(b, k)
    ensures forall p :: p in a <==> p in b
  {
    forall p
      ensures p in a <==> p in b
    {
      GetSpec(a, p.0, p.1);
      GetSpec(b, p.0, p.1);
    }
  }

  /** Looking up in a sequence with one item added at its end. */
  lemma {:induction false} GetSnoc<V>(d: seq<(string, V)>, p: (string, V), k: string)
    ensures Get(d + [p], k) == if Get(d, k).Some? then Get(d, k) else if p.0 == k then Some(p.1) else None
  {
    if |d| > 0 {
      assert (d + [p])[1..] == d[1..] + [p];
      GetSnoc(d[1..], p, k);
    }
  }

  /** `d[k] = v`: the new value replaces the old one under `k`, every other key keeps its value. */
  function Put<V>(d: Dict<V>, k: string, v: V): (r: Dict<V>)
    ensures forall k' :: Get(r, k') == if k' == k then Some(v) else Get(d, k')
  {
    if |d| == 0 then [(k, v)]
    else if d[0].0 == k then
      GetNone(d[1..], k);
      [(k, v)] + d[1..]
    else
      var rest := Put(d[1..], k, v);
      GetNone(d[1..], d[0].0);
      GetNone(rest, d[0].0);
      [d[0]] + rest
  }

  lemma KeysCons<V>(p: (string, V), s: seq<(string, V)>)
    ensures Keys([p] + s) == [p.0] + Keys(s)
  {
    var t := [p] + s;
    var l, r := Keys(t), [p.0] + Keys(s);
    forall i | 0 <= i < |l|
      ensures l[i] == r[i]
    {
      if i > 0 {
        assert t[i] == s[i - 1];
      }
    }
  }

  /** An existing key keeps its place in the iteration order; a new key goes last. */
  lemma {:induction false} PutKeys<V>(d: Dict<V>, k: string, v: V)
    ensures Keys(Put(d, k, v)) == if Get(d, k).Some? then Keys(d) else Keys(d) + [k]
  {
    if |d| == 0 {
      assert Keys(Put(d, k, v)) == [k];
    } else {
      assert d == [d[0]] + d[1..];
      KeysCons(d[0], d[1..]);
      if d[0].0 == k {
        KeysCons((k, v), d[1..]);
      } else {
        PutKeys(d[1..], k, v);
        KeysCons(d[0], Put(d[1..], k, v));
      }
    }
  }

  /** `d.update(u)`: every item of `u` is assigned into `d`, in the order of `u`. */
  function Update<V>(d: Dict<V>, u: Dict<V>): (r: Dict<V>)
    ensures forall k :: Get(r, k) == if Get(u, k).Some? then Get(u, k) else Get(d, k)
    decreases |u|
  {
    if |u| == 0 then d
    else
      GetNone(u[1..], u[0].0);
      Update(Put(d, u[0].0, u[0].1), u[1..])
  }

  /** Keys in strictly ascending order of Python's string comparison. */
  predicate StrictlySorted<V>(d: seq<(string, V)>)
  {
    forall i, j :: 0 <= i < j < |d| ==> Less(d[i].0, d[j].0)
  }

  lemma SortedDistinct<V>(s: seq<(string, V)>)
    requires StrictlySorted(s)
    ensures DistinctKeys(s)
  {
    forall i, j | 0 <= i < j < |s| ensures s[i].0 != s[j].0 {
      LessAsymmetric(s[i].0, s[j].0);
    }
  }

  /** Putting a key below all keys of a sorted sequence in front keeps it sorted. */
  lemma ConsSorted<V>(p: (string, V), s: seq<(string, V)>)
    requires StrictlySorted(s) && forall i :: 0 <= i < |s| ==> Less(p.0, s[i].0)
    ensures StrictlySorted([p] + s) && DistinctKeys([p] + s)
  {
    var t := [p] + s;
    forall i, j | 0 <= i < j < |t| ensures Less(t[i].0, t[j].0) {
      if i > 0 {
        assert t[i] == s[i - 1] && t[j] == s[j - 1];
      } else {
        assert t[j] == s[j - 1];
      }
    }
    SortedDistinct(t);
  }

  /** A key below the first key of a sorted sequence is below all its keys. */
  lemma BelowHead<V>(s: seq<(string, V)>, k: string)
    requires StrictlySorted(s) && |s| > 0 && Less(k, s[0].0)
    ensures forall j :: 0 <= j < |s| ==> Less(k, s[j].0)
  {
    forall j | 0 < j < |s| ensures Less(k, s[j].0) {
      LessTransitive(k, s[0].0, s[j].0);
    }
  }

  /** The head of a sorted `s` lies below every key of `s[1..]` with `k` added. */
  lemma BelowInserted<V>(s: seq<(string, V)>, k: string, v: V, rest: seq<(string, V)>)
    requires StrictlySorted(s) && |s| > 0 && Less(s[0].0, k)
    requires multiset(rest) == multiset(s[1..]) + multiset{(k, v)}
    ensures forall i :: 0 <= i < |rest| ==> Less(s[0].0, rest[i].0)
  {
    forall i | 0 <= i < |rest| ensures Less(s[0].0, rest[i].0) {
      assert rest[i] in multiset(rest);
      if rest[i] != (k, v) {
        assert rest[i] in multiset(s[1..]);
        var j :| 0 <= j < |s[1..]| && s[1..][j] == rest[i];
        assert s[j + 1] == rest[i];
      }
    }
  }

  /** One step of insertion sort: `(k, v)` placed where its key belongs. */
  function Insert<V(==)>(s: Dict<V>, k: string, v: V): (r: Dict<V>)
    requires StrictlySorted(s) && Get(s, k) == None
    ensures StrictlySorted(r)
    ensures multiset(r) == multiset(s) + multiset{(k, v)}
    decreases |s|
  {
    if |s| == 0 then [(k, v)]
    else if Less(k, s[0].0) then
      BelowHead(s, k);
      ConsSorted((k, v), s);
      assert multiset([(k, v)] + s) == multiset(s) + multiset{(k, v)};
      [(k, v)] + s
    else
      LessTotal(k, s[0].0);
      var rest := Insert(s[1..], k, v);
      InsertAfterHead(s, k, v, rest);
      [s[0]] + rest
  }

  /** The head of `s` followed by the insertion into the tail is the insertion into `s`. */
  lemma InsertAfterHead<V>(s: seq<(string, V)>, k: string, v: V, rest: seq<(string, V)>)
    requires StrictlySorted(s) && |s| > 0 && Less(s[0].0, k)
    requires StrictlySorted(rest) && multiset(rest) == multiset(s[1..]) + multiset{(k, v)}
    ensures StrictlySorted([s[0]] + rest) && DistinctKeys([s[0]] + rest)
    ensures multiset([s[0]] + rest) == multiset(s) + multiset{(k, v)}
  {
    BelowInserted(s, k, v, rest);
    ConsSorted(s[0], rest);
    assert s == [s[0]] + s[1..];
  }

  /** `OrderedDict(sorted(d.items()))`. */
  function SortByKey<V(==)>(d: Dict<V>): (r: Dict<V>)
    ensures StrictlySorted(r)
    ensures multiset(r) == multiset(d)
  {
    if |d| == 0 then []
    else
      var rest := SortByKey(d[1..]);
      HeadMissingFromRest(d, rest);
      Insert(rest, d[0].0, d[0].1)
  }

  /** The first key of a dictionary is in no rearrangement of its other items. */
  lemma HeadMissingFromRest<V>(d: Dict<V>, rest: seq<(string, V)>)
    requires |d| > 0 && multiset(rest) == multiset(d[1..])
    ensures Get(rest, d[0].0) == None
    ensures multiset(d) == multiset(rest) + multiset{d[0]}
  {
    assert d == [d[0]] + d[1..];
    forall i | 0 <= i < |rest| ensures rest[i].0 != d[0].0 {
      assert rest[i] in multiset(rest);
      var j :| 0 <= j < |d[1..]| && d[1..][j] == rest[i];
      assert d[j + 1] == rest[i];
    }
    GetNone(rest, d[0].0);
  }

  /** Sorting keeps every lookup. */
  lemma SortByKeyGetAll<V>(d: Dict<V>)
    ensures forall k :: Get(SortByKey(d), k) == Get(d, k)
  {
    forall k {
      SortByKeyGet(d, k);
    }
  }

  lemma SortByKeyGet<V>(d: Dict<V>, k: string)
    ensures Get(SortByKey(d), k) == Get(d, k)
  {
    var r := SortByKey(d);
    forall v
      ensures Get(r, k) == Some(v) <==> Get(d, k) == Some(v)
    {
      GetSpec(r, k, v);
      GetSpec(d, k, v);
      assert (k, v) in r <==> (k, v) in multiset(r);
      assert (k, v) in d <==> (k, v) in multiset(d);
    }
    if Get(r, k).Some? {
      assert Get(d, k) == Some(Get(r, k).value);
    }
  }

  lemma SameItemsSameEmptiness<V>(a: seq<(string, V)>, b: seq<(string, V)>)
    requires forall p :: p in a <==> p in b
    ensures |a| == 0 <==> |b| == 0
  {
    if |a| > 0 {
      assert a[0] in b;
    }
    if |b| > 0 {
      assert b[0] in a;
    }
  }

  /** Two strictly sorted sequences holding the same items start with the same item. */
  lemma SortedSameHead<V>(a: seq<(string, V)>, b: seq<(string, V)>)
    requires StrictlySorted(a) && StrictlySorted(b) && |a| > 0 && |b| > 0
    requires forall p :: p in a <==> p in b
    ensures a[0] == b[0]
  {
    assert a[0] in b && b[0] in a;
    var j :| 0 <= j < |b| && b[j] == a[0];
    var i :| 0 <= i < |a| && a[i] == b[0];
    if j > 0 && i > 0 {
      LessAsymmetric(a[0].0, b[0].0);
    }
  }

  lemma SortedSameTail<V>(a: seq<(string, V)>, b: seq<(string, V)>)
    requires StrictlySorted(a) && StrictlySorted(b) && |a| > 0 && |b| > 0 && a[0] == b[0]
    requires forall p :: p in a <==> p in b
    ensures forall p :: p in a[1..] <==> p in b[1..]
  {
    forall p | p in a[1..] ensures p in b[1..] {
      var m :| 1 <= m < |a| && a[m] == p;
      LessAsymmetric(a[0].0, a[m].0);
      assert p in b;
      var n :| 0 <= n < |b| && b[n] == p;
      assert b[1..][n - 1] == p;
    }
    forall p | p in b[1..] ensures p in a[1..] {
      var n :| 1 <= n < |b| && b[n] == p;
      LessAsymmetric(b[0].0, b[n].0);
      assert p in a;
      var m :| 0 <= m < |a| && a[m] == p;
      assert a[1..][m - 1] == p;
    }
  }

  /** A strictly sorted dictionary is fixed by its items. */
  lemma {:induction false} SortedUnique<V>(a: seq<(string, V)>, b: seq<(string, V)>)
    requires StrictlySorted(a) && StrictlySorted(b)
    requires forall p :: p in a <==> p in b
    ensures a == b
    decreases |a|
  {
    SameItemsSameEmptiness(a, b);
    if |a| > 0 {
      SortedSameHead(a, b);
      SortedSameTail(a, b);
      SortedUnique(a[1..], b[1..]);
      assert a == [a[0]] + a[1..] && b == [b[0]] + b[1..];
    }
  }

  /** A strictly sorted dictionary is fixed by its lookups. */
  lemma SortedDeterminedByGet<V>(a: Dict<V>, b: Dict<V>)
    requires StrictlySorted(a) && StrictlySorted(b)
    requires forall k :: Get(a, k) == Get(b, k)
    ensures a == b
  {
    SameGetSameItems(a, b);
    SortedUnique(a, b);
  }

  /**
   * The sorted dictionary depends only on the lookups: two dictionaries that answer
   * every key alike have the same size and sort to the same result.
   */
  lemma SortByKeyDeterminedByGet<V>(a: Dict<V>, b: Dict<V>)
    requires forall k :: Get(a, k) == Get(b, k)
    ensures SortByKey(a) == SortByKey(b)
    ensures |a| == |b|
  {
    var sa, sb := SortByKey(a), SortByKey(b);
    forall k
      ensures Get(sa, k) == Get(sb, k)
    {
      SortByKeyGet(a, k);
      SortByKeyGet(b, k);
    }
    SameGetSameItems(sa, sb);
    SortedUnique(sa, sb);
    assert |multiset(sa)| == |multiset(a)| && |multiset(sb)| == |multiset(b)|;
  }

  /** Sorting an already sorted dictionary changes nothing. */
  lemma SortByKeyOfSorted<V>(d: Dict<V>)
    requires StrictlySorted(d)
    ensures SortByKey(d) == d
  {
    var r := SortByKey(d);
    forall p
      ensures p in r <==> p in d
    {
      assert p in r <==> p in multiset(r);
      assert p in d <==> p in multiset(d);
    }
    SortedUnique(r, d);
  }
}
