/**
 * The loosely structured payload tree the remote player returns (parsed JSON) and the
 * Python dictionary operations the core applies to it. A dictionary is an ORDERED list of
 * entries: iteration order decides candidate order, and `dict.update` keeps an existing key
 * in its place and appends a new key at the end.
 */
module Values {
  import opened Wrappers

  datatype Value =
    | Null
    | Num(n: real)
    | Str(s: string)
    | Bool(b: bool)
    | Map(entries: seq<Entry>)
    | List(items: seq<Value>)

  datatype Entry = Entry(key: string, val: Value)

  /** A Python dict as the ordered list of its entries. */
  type Dict = seq<Entry>

  /** Keys are pairwise distinct, as in every Python dict. */
  ghost predicate UniqueKeys(d: Dict) {
    forall i, j :: 0 <= i < j < |d| ==> d[i].key != d[j].key
  }

  /** Position of `k` in `d`: its first occurrence, or None when `k` is absent. */
  function KeyIndex(d: Dict, k: string): (r: Option<nat>)
    ensures r.Some? ==> r.value < |d| && d[r.value].key == k
    ensures r.Some? ==> forall j :: 0 <= j < r.value ==> d[j].key != k
    ensures r.None? ==> forall j :: 0 <= j < |d| ==> d[j].key != k
  {
    if d == [] then None
    else if d[0].key == k then Some(0)
    else
      match KeyIndex(d[1..], k)
      case None => None
      case Some(i) => Some(i + 1)
  }

  /** `k in d`. */
  predicate HasKey(d: Dict, k: string) {
    KeyIndex(d, k).Some?
  }

  /** `d.get(k)`: None when `k` is absent. */
  function Get(d: Dict, k: string): Option<Value> {
    match KeyIndex(d, k)
    case Some(i) => Some(d[i].val)
    case None => None
  }

  /** In a dict with distinct keys, the entry at position `i` is what `Get` finds under its key. */
  lemma GetAt(d: Dict, i: nat)
    requires UniqueKeys(d) && i < |d|
    ensures KeyIndex(d, d[i].key) == Some(i)
    ensures Get(d, d[i].key) == Some(d[i].val)
  {
  }

  /** `d[k] = v`: overwrite in place when `k` is present, append otherwise. */
  function Set(d: Dict, k: string, v: Value): (r: Dict)
    ensures Get(r, k) == Some(v)
    ensures forall k' :: k' != k ==> Get(r, k') == Get(d, k')
    ensures |r| == if HasKey(d, k) then |d| else |d| + 1
    ensures forall i :: 0 <= i < |d| ==> r[i].key == d[i].key
    ensures forall i :: 0 <= i < |d| && d[i].key != k ==> r[i] == d[i]
    ensures !HasKey(d, k) ==> r[|d|] == Entry(k, v)
    ensures UniqueKeys(d) ==> UniqueKeys(r)
  {
    match KeyIndex(d, k)
    case Some(i) =>
      var r := d[i := Entry(k, v)];
      assert forall k' :: k' != k ==> KeyIndex(r, k') == KeyIndex(d, k') by {
        forall k' | k' != k ensures KeyIndex(r, k') == KeyIndex(d, k') {
          KeyIndexSameKeys(d, r, k');
        }
      }
      KeyIndexSameKeys(d, r, k);
      r
    case None =>
      var r := d + [Entry(k, v)];
      assert forall k' :: k' != k ==> KeyIndex(r, k') == KeyIndex(d, k') by {
        forall k' | k' != k ensures KeyIndex(r, k') == KeyIndex(d, k') {
          KeyIndexAppend(d, Entry(k, v), k');
        }
      }
      KeyIndexAppendHit(d, Entry(k, v));
      r
  }

  lemma {:induction false} KeyIndexSameKeys(d: Dict, e: Dict, k: string)
    requires |d| == |e| && forall i :: 0 <= i < |d| ==> d[i].key == e[i].key
    ensures KeyIndex(d, k) == KeyIndex(e, k)
  {
    if d != [] {
      KeyIndexSameKeys(d[1..], e[1..], k);
    }
  }

  lemma {:induction false} KeyIndexAppend(d: Dict, x: Entry, k: string)
    requires x.key != k
    ensures KeyIndex(d + [x], k) == KeyIndex(d, k)
  {
    if d != [] {
      assert (d + [x])[1..] == d[1..] + [x];
      KeyIndexAppend(d[1..], x, k);
    }
  }

  /** The value of the LAST entry of `src` under `k`: what a sequence of assignments leaves behind. */
  function Latest(src: Dict, k: string): Option<Value> {
    if src == [] then None
    else if src[|src| - 1].key == k then Some(src[|src| - 1].val)
    else Latest(src[..|src| - 1], k)
  }

  /** In a dict with distinct keys the last entry under a key is the only one. */
  lemma {:induction false} LatestIsGet(src: Dict, k: string)
    requires UniqueKeys(src)
    ensures Latest(src, k) == Get(src, k)
  {
    if src != [] {
      var n := |src| - 1;
      LatestIsGet(src[..n], k);
      assert src[..n] + [src[n]] == src;
      if src[n].key == k {
        KeyIndexAppendHit(src[..n], src[n]);
      } else {
        KeyIndexAppend(src[..n], src[n], k);
      }
    }
  }

  lemma {:induction false} KeyIndexAppendHit(d: Dict, x: Entry)
    requires forall j :: 0 <= j < |d| ==> d[j].key != x.key
    ensures KeyIndex(d + [x], x.key) == Some(|d|)
  {
    if d != [] {
      assert (d + [x])[1..] == d[1..] + [x];
      KeyIndexAppendHit(d[1..], x);
    }
  }

  /** `d.update(src)`: the assignments `d[k] = v` for every entry of `src`, in order. */
  function Update(d: Dict, src: Dict): (r: Dict)
    ensures forall k :: Get(r, k) == if Latest(src, k).Some? then Latest(src, k) else Get(d, k)
    ensures |r| >= |d| && forall i :: 0 <= i < |d| ==> r[i].key == d[i].key
    ensures forall i :: |d| <= i < |r| ==> !HasKey(d, r[i].key) && Latest(src, r[i].key).Some?
    ensures (forall i :: 0 <= i < |src| ==> HasKey(d, src[i].key)) ==> |r| == |d|
    ensures UniqueKeys(d) ==> UniqueKeys(r)
  {
    if src == [] then d
    else
      var n := |src| - 1;
      var u := Update(d, src[..n]);
      UpdateStep(d, src, u);
      Set(u, src[n].key, src[n].val)
  }

  /** What `Update` promises, gathered in one predicate for the step lemma. */
  ghost predicate Updated(d: Dict, src: Dict, r: Dict) {
    && (forall k :: Get(r, k) == if Latest(src, k).Some? then Latest(src, k) else Get(d, k))
    && |r| >= |d| && (forall i :: 0 <= i < |d| ==> r[i].key == d[i].key)
    && (forall i :: |d| <= i < |r| ==> !HasKey(d, r[i].key) && Latest(src, r[i].key).Some?)
    && ((forall i :: 0 <= i < |src| ==> HasKey(d, src[i].key)) ==> |r| == |d|)
    && (UniqueKeys(d) ==> UniqueKeys(r))
  }

  /** One more assignment keeps the promise of `Update`. */
  lemma UpdateStep(d: Dict, src: Dict, u: Dict)
    requires src != [] && Updated(d, src[..|src| - 1], u)
    ensures Updated(d, src, Set(u, src[|src| - 1].key, src[|src| - 1].val))
  {
    var n := |src| - 1;
    var r := Set(u, src[n].key, src[n].val);
    assert forall i :: 0 <= i < n ==> src[..n][i] == src[i];
    forall i | |d| <= i < |r|
      ensures !HasKey(d, r[i].key) && Latest(src, r[i].key).Some?
    {
      if i >= |u| {
        assert r[i].key == src[n].key && !HasKey(u, src[n].key);
        assert Get(u, src[n].key) == None;
      } else {
        assert r[i].key == u[i].key;
      }
    }
  }

  /**
   * The entries `r` holds beyond `d` have keys that occur in `src`, in the order of their first
   * occurrence there.
   */
  ghost predicate AppendedInOrder(d: Dict, src: Dict, r: Dict) {
    && (forall i :: |d| <= i < |r| ==> KeyIndex(src, r[i].key).Some?)
    && (forall i, j :: |d| <= i < j < |r| ==>
          KeyIndex(src, r[i].key).Some? && KeyIndex(src, r[j].key).Some?
          && KeyIndex(src, r[i].key).value < KeyIndex(src, r[j].key).value)
  }

  /** `d.update(src)` appends the keys new to `d` in the order in which `src` first lists them. */
  lemma {:induction false} UpdateAppendsInOrder(d: Dict, src: Dict)
    ensures AppendedInOrder(d, src, Update(d, src))
  {
    if src != [] {
      var n := |src| - 1;
      var k := src[n].key;
      var u := Update(d, src[..n]);
      UpdateAppendsInOrder(d, src[..n]);
      assert HasKey(u, k) || Latest(src[..n], k).None? by {
        if !HasKey(u, k) {
          assert Get(u, k).None?;
        }
      }
      AppendedStep(d, src, u);
    }
  }

  /** One more assignment keeps the appended keys in order. */
  lemma AppendedStep(d: Dict, src: Dict, u: Dict)
    requires src != [] && |u| >= |d| && AppendedInOrder(d, src[..|src| - 1], u)
    requires HasKey(u, src[|src| - 1].key) || Latest(src[..|src| - 1], src[|src| - 1].key).None?
    ensures AppendedInOrder(d, src, Set(u, src[|src| - 1].key, src[|src| - 1].val))
  {
    var n := |src| - 1;
    var k := src[n].key;
    var r := Set(u, k, src[n].val);
    forall i | |d| <= i < |u| ensures KeyIndex(src, u[i].key) == KeyIndex(src[..n], u[i].key) {
      KeyIndexPrefix(src, n, u[i].key);
    }
    if !HasKey(u, k) {
      KeyIndexFirstAtEnd(src, k);
    }
  }

  /** A key found in a prefix is found at the same place in the whole. */
  lemma KeyIndexPrefix(src: Dict, n: nat, k: string)
    requires n <= |src| && KeyIndex(src[..n], k).Some?
    ensures KeyIndex(src, k) == KeyIndex(src[..n], k)
  {
    var m := KeyIndex(src[..n], k).value;
    assert src[m] == src[..n][m];
    assert forall j :: 0 <= j < m ==> src[j] == src[..n][j];
  }

  /** A key that the entries before the last never assign first occurs in the last entry. */
  lemma KeyIndexFirstAtEnd(src: Dict, k: string)
    requires src != [] && src[|src| - 1].key == k && Latest(src[..|src| - 1], k).None?
    ensures KeyIndex(src, k) == Some(|src| - 1)
  {
    var n := |src| - 1;
    forall j | 0 <= j < n ensures src[j].key != k {
      if src[j].key == k {
        LatestPresent(src[..n], j);
      }
    }
  }

  /** Two dicts with distinct keys, the same key order and the same lookups are equal. */
  lemma DictExtensionality(a: Dict, b: Dict)
    requires UniqueKeys(a) && UniqueKeys(b)
    requires |a| == |b| && forall i :: 0 <= i < |a| ==> a[i].key == b[i].key
    requires forall k :: Get(a, k) == Get(b, k)
    ensures a == b
  {
    forall i | 0 <= i < |a| ensures a[i] == b[i] {
      GetAt(a, i);
      GetAt(b, i);
    }
  }

  /** `d.update(src)` twice is `d.update(src)` once. */
  lemma UpdateIdempotent(d: Dict, src: Dict)
    requires UniqueKeys(d)
    ensures Update(Update(d, src), src) == Update(d, src)
  {
    var u := Update(d, src);
    var w := Update(u, src);
    forall i | 0 <= i < |src| ensures HasKey(u, src[i].key) {
      LatestPresent(src, i);
    }
    DictExtensionality(w, u);
  }

  lemma {:induction false} LatestPresent(src: Dict, i: nat)
    requires i < |src|
    ensures Latest(src, src[i].key).Some?
  {
    var n := |src| - 1;
    if i < n && src[n].key != src[i].key {
      LatestPresent(src[..n], i);
    }
  }

  /** `d` without the entries whose key is one of `keys`; the others keep their order. */
  function Without(d: Dict, keys: seq<string>): (r: Dict)
    ensures |r| <= |d|
    ensures forall i :: 0 <= i < |r| ==> r[i] in d && r[i].key !in keys
    ensures forall i :: 0 <= i < |d| && d[i].key !in keys ==> d[i] in r
  {
    if d == [] then []
    else if d[0].key in keys then Without(d[1..], keys)
    else [d[0]] + Without(d[1..], keys)
  }

  /** The entries of `r` come in the order their keys first occur in `d`. */
  ghost predicate InOrderOf(r: Dict, d: Dict) {
    forall i, j :: 0 <= i < j < |r| ==>
      KeyIndex(d, r[i].key).Some? && KeyIndex(d, r[j].key).Some?
      && KeyIndex(d, r[i].key).value < KeyIndex(d, r[j].key).value
  }

  /** The entries a stripped dict keeps stay in their order (`dict.pop` moves nothing). */
  lemma {:induction false} WithoutKeepsOrder(d: Dict, keys: seq<string>)
    ensures UniqueKeys(d) ==> InOrderOf(Without(d, keys), d)
  {
    if d != [] && UniqueKeys(d) {
      var tail := d[1..];
      assert UniqueKeys(tail) by {
        forall i, j | 0 <= i < j < |tail| ensures tail[i].key != tail[j].key {
          assert tail[i] == d[i + 1] && tail[j] == d[j + 1];
        }
      }
      WithoutKeepsOrder(tail, keys);
      var rest := Without(tail, keys);
      forall m | 0 <= m < |rest|
        ensures KeyIndex(tail, rest[m].key).Some?
        ensures KeyIndex(d, rest[m].key) == Some(KeyIndex(tail, rest[m].key).value + 1)
      {
        KeyIndexPastHead(d, rest[m]);
      }
      if d[0].key !in keys {
        assert KeyIndex(d, d[0].key) == Some(0);
        ConsInOrder(d, rest);
      }
    }
  }

  /** An entry behind the head of a dict with distinct keys sits one place further on than in the tail. */
  lemma KeyIndexPastHead(d: Dict, e: Entry)
    requires UniqueKeys(d) && d != [] && e in d[1..]
    ensures KeyIndex(d[1..], e.key).Some?
    ensures KeyIndex(d, e.key) == Some(KeyIndex(d[1..], e.key).value + 1)
  {
    var j :| 0 <= j < |d[1..]| && d[1..][j] == e;
    assert d[j + 1] == e;
    assert e.key != d[0].key;
  }

  /**
   * Keys appended in the order a stripped payload lists them are appended in the order the
   * whole payload lists them, when its keys are distinct.
   */
  lemma AppendedInStrippedOrder(d: Dict, src: Dict, keys: seq<string>, r: Dict)
    requires AppendedInOrder(d, Without(src, keys), r)
    ensures UniqueKeys(src) ==> AppendedInOrder(d, src, r)
  {
    var w := Without(src, keys);
    WithoutKeepsOrder(src, keys);
    if !UniqueKeys(src) {
      return;
    }
    forall i | |d| <= i < |r| ensures KeyIndex(src, r[i].key).Some? {
      var a := KeyIndex(w, r[i].key).value;
      assert w[a] in src;
    }
    forall i, j | |d| <= i < j < |r|
      ensures KeyIndex(src, r[i].key).value < KeyIndex(src, r[j].key).value
    {
      var a := KeyIndex(w, r[i].key).value;
      var b := KeyIndex(w, r[j].key).value;
      assert a < b && w[a].key == r[i].key && w[b].key == r[j].key;
    }
  }

  /** Keeping the head in front of entries already in order keeps the order. */
  lemma ConsInOrder(d: Dict, rest: Dict)
    requires d != [] && InOrderOf(rest, d[1..])
    requires forall m :: 0 <= m < |rest| ==>
      KeyIndex(d[1..], rest[m].key).Some? && KeyIndex(d, rest[m].key) == Some(KeyIndex(d[1..], rest[m].key).value + 1)
    ensures InOrderOf([d[0]] + rest, d)
  {
    ShiftedInOrder(d, rest);
    PrependInOrder(d, d[0], rest);
  }

  /** Order among entries behind the head is order in the whole dict. */
  lemma ShiftedInOrder(d: Dict, rest: Dict)
    requires d != [] && InOrderOf(rest, d[1..])
    requires forall m :: 0 <= m < |rest| ==>
      KeyIndex(d[1..], rest[m].key).Some? && KeyIndex(d, rest[m].key) == Some(KeyIndex(d[1..], rest[m].key).value + 1)
    ensures InOrderOf(rest, d)
    ensures forall m :: 0 <= m < |rest| ==> KeyIndex(d, rest[m].key).Some? && KeyIndex(d, rest[m].key).value > 0
  {
  }

  /** The entry at the head of `d` may go in front of entries that all come later in `d`. */
  lemma PrependInOrder(d: Dict, x: Entry, rest: Dict)
    requires KeyIndex(d, x.key) == Some(0) && InOrderOf(rest, d)
    requires forall m :: 0 <= m < |rest| ==> KeyIndex(d, rest[m].key).Some? && KeyIndex(d, rest[m].key).value > 0
    ensures InOrderOf([x] + rest, d)
  {
    var r := [x] + rest;
    forall i, j | 0 <= i < j < |r|
      ensures KeyIndex(d, r[i].key).Some? && KeyIndex(d, r[j].key).Some?
      ensures KeyIndex(d, r[i].key).value < KeyIndex(d, r[j].key).value
    {
      assert r[j] == rest[j - 1];
      if i > 0 {
        assert r[i] == rest[i - 1];
      }
    }
  }

  /** Lookups in a stripped dict: the removed keys are absent, all others are as before. */
  lemma {:induction false} WithoutGet(d: Dict, keys: seq<string>, k: string)
    ensures Get(Without(d, keys), k) == if k in keys then None else Get(d, k)
  {
    if d != [] {
      WithoutGet(d[1..], keys, k);
      if d[0].key != k {
        GetTail(d, k);
      }
      if d[0].key !in keys {
        var r := [d[0]] + Without(d[1..], keys);
        assert r[1..] == Without(d[1..], keys);
        if d[0].key != k {
          GetTail(r, k);
        }
      }
    }
  }

  /** Looking past the first entry when it holds another key. */
  lemma GetTail(d: Dict, k: string)
    requires d != [] && d[0].key != k
    ensures Get(d, k) == Get(d[1..], k)
  {
  }

  lemma {:induction false} WithoutUnique(d: Dict, keys: seq<string>)
    requires UniqueKeys(d)
    ensures UniqueKeys(Without(d, keys))
  {
    if d != [] {
      WithoutUnique(d[1..], keys);
      var rest := Without(d[1..], keys);
      forall i | 0 <= i < |rest| ensures rest[i].key != d[0].key {
        var j :| 0 <= j < |d[1..]| && d[1..][j] == rest[i];
        assert d[j + 1] == rest[i];
      }
    }
  }

  /** Removing one more key from a stripped dict strips that key too (`dict.pop` in a loop). */
  lemma {:induction false} WithoutOneMore(d: Dict, keys: seq<string>, k: string)
    ensures Without(Without(d, keys), [k]) == Without(d, keys + [k])
  {
    if d != [] {
      WithoutOneMore(d[1..], keys, k);
    }
  }

  /** Looking up the last assignment past a first entry. */
  lemma {:induction false} LatestCons(x: Entry, rest: Dict, k: string)
    ensures Latest([x] + rest, k)
      == if Latest(rest, k).Some? then Latest(rest, k) else if x.key == k then Some(x.val) else None
  {
    if rest == [] {
      assert [x] + rest == [x] && [x][..0] == [];
    } else {
      var n := |rest| - 1;
      assert ([x] + rest)[..|rest|] == [x] + rest[..n];
      LatestCons(x, rest[..n], k);
    }
  }

  /** The last assignment under `k` in a stripped dict: none for a removed key, as before otherwise. */
  lemma {:induction false} LatestWithout(d: Dict, keys: seq<string>, k: string)
    ensures Latest(Without(d, keys), k) == if k in keys then None else Latest(d, k)
  {
    if d != [] {
      assert d == [d[0]] + d[1..];
      LatestWithout(d[1..], keys, k);
      LatestCons(d[0], d[1..], k);
      if d[0].key !in keys {
        LatestCons(d[0], Without(d[1..], keys), k);
      }
    }
  }

  /** Removing no key leaves the dict as it is. */
  lemma {:induction false} WithoutNothing(d: Dict)
    ensures Without(d, []) == d
  {
    if d != [] {
      WithoutNothing(d[1..]);
    }
  }
}
