/**
 * `_deep_find_all(obj, candidates)`: a depth-first walk of a status tree that collects the value
 * of every dictionary entry whose lower-cased key contains one of the needles, once per needle
 * that occurs in it, each hit placed before the hits found inside its own value.
 */
module DeepFind {
  import opened Text
  import opened Values

  /** How many needles occur in `key`: the entry's value is appended once for each of them. */
  function MatchCount(key: string, needles: seq<string>): (n: nat)
    ensures n <= |needles|
    ensures n == 0 <==> forall i :: 0 <= i < |needles| ==> !Contains(key, needles[i])
  {
    if needles == [] then 0
    else
      MatchCount(key, needles[..|needles| - 1])
      + (if Contains(key, needles[|needles| - 1]) then 1 else 0)
  }

  /** One needle counts 1 when it occurs in the key and 0 otherwise. */
  lemma MatchCountSingle(key: string, c: string)
    ensures MatchCount(key, [c]) == if Contains(key, c) then 1 else 0
  {
    assert [c][..0] == [];
  }

  /**
   * Counts over a concatenation of needle lists add up: with `MatchCountSingle`, `MatchCount`
   * is the number of needles that occur in the key.
   */
  lemma {:induction false} MatchCountAppend(key: string, a: seq<string>, b: seq<string>)
    ensures MatchCount(key, a + b) == MatchCount(key, a) + MatchCount(key, b)
  {
    if b != [] {
      var n := |b| - 1;
      var ab := a + b;
      var last := if Contains(key, b[n]) then 1 else 0;
      assert MatchCount(key, ab) == MatchCount(key, a + b[..n]) + last by {
        assert ab[..|ab| - 1] == a + b[..n];
        assert ab[|ab| - 1] == b[n];
      }
      MatchCountAppend(key, a, b[..n]);
    } else {
      assert a + b == a;
    }
  }

  /** `n` copies of `v`. */
  function Repeat(v: Value, n: nat): (r: seq<Value>)
    ensures |r| == n && forall i :: 0 <= i < n ==> r[i] == v
  {
    seq(n, _ => v)
  }

  /** What one entry contributes: its own hits, then everything found inside its value. */
  function EntryHits(e: Entry, needles: seq<string>): seq<Value>
    decreases e, 1
  {
    Repeat(e.val, MatchCount(Lower(e.key), needles)) + DeepFindAll(e.val, needles)
  }

  /** The search itself; `None` and scalars contribute nothing. */
  function DeepFindAll(v: Value, needles: seq<string>): seq<Value>
    decreases v, 0
  {
    match v
    case Map(es) => FindInEntries(es, needles)
    case List(xs) => FindInItems(xs, needles)
    case _ => []
  }

  function FindInEntries(es: seq<Entry>, needles: seq<string>): seq<Value>
    decreases es, 2
  {
    if es == [] then []
    else FindInEntries(es[..|es| - 1], needles) + EntryHits(es[|es| - 1], needles)
  }

  function FindInItems(xs: seq<Value>, needles: seq<string>): seq<Value>
    decreases xs, 2
  {
    if xs == [] then []
    else FindInItems(xs[..|xs| - 1], needles) + DeepFindAll(xs[|xs| - 1], needles)
  }

  /*
   * An independent description: list every entry of the tree in depth-first pre-order,
   * then keep the value of each entry as often as needles occur in its key.
   */

  function PreOrder(v: Value): seq<Entry>
    decreases v, 0
  {
    match v
    case Map(es) => EntriesPreOrder(es)
    case List(xs) => ItemsPreOrder(xs)
    case _ => []
  }

  function EntriesPreOrder(es: seq<Entry>): seq<Entry>
    decreases es, 1
  {
    if es == [] then []
    else [es[0]] + PreOrder(es[0].val) + EntriesPreOrder(es[1..])
  }

  function ItemsPreOrder(xs: seq<Value>): seq<Entry>
    decreases xs, 1
  {
    if xs == [] then [] else PreOrder(xs[0]) + ItemsPreOrder(xs[1..])
  }

  /** The values of the listed entries, each repeated by its needle count. */
  function Hits(es: seq<Entry>, needles: seq<string>): seq<Value> {
    if es == [] then []
    else Repeat(es[0].val, MatchCount(Lower(es[0].key), needles)) + Hits(es[1..], needles)
  }

  lemma {:induction false} HitsAppend(a: seq<Entry>, b: seq<Entry>, needles: seq<string>)
    ensures Hits(a + b, needles) == Hits(a, needles) + Hits(b, needles)
  {
    if a != [] {
      assert (a + b)[0] == a[0];
      assert (a + b)[1..] == a[1..] + b;
      HitsAppend(a[1..], b, needles);
    } else {
      assert a + b == b;
    }
  }

  /** The search finds exactly the hits of the pre-order listing, in that order. */
  lemma {:induction false} DeepFindAllIsPreOrderHits(v: Value, needles: seq<string>)
    ensures DeepFindAll(v, needles) == Hits(PreOrder(v), needles)
    decreases v, 0
  {
    match v
    case Map(es) => EntriesAreHits(es, needles);
    case List(xs) => ItemsAreHits(xs, needles);
    case _ =>
  }

  lemma {:induction false} EntriesAreHits(es: seq<Entry>, needles: seq<string>)
    ensures FindInEntries(es, needles) == Hits(EntriesPreOrder(es), needles)
    decreases es, 1
  {
    if es != [] {
      var n := |es| - 1;
      var init, e := es[..n], es[n];
      var own := Repeat(e.val, MatchCount(Lower(e.key), needles));
      assert init + [e] == es;
      EntriesPreOrderSnoc(init, e);
      assert EntriesPreOrder(es) == EntriesPreOrder(init) + ([e] + PreOrder(e.val));
      assert Hits([e] + PreOrder(e.val), needles) == own + Hits(PreOrder(e.val), needles) by {
        assert ([e] + PreOrder(e.val))[1..] == PreOrder(e.val);
      }
      calc {
        FindInEntries(es, needles);
        FindInEntries(init, needles) + EntryHits(e, needles);
        { EntriesAreHits(init, needles); DeepFindAllIsPreOrderHits(e.val, needles); }
        Hits(EntriesPreOrder(init), needles) + (own + Hits(PreOrder(e.val), needles));
        { HitsAppend(EntriesPreOrder(init), [e] + PreOrder(e.val), needles); }
        Hits(EntriesPreOrder(es), needles);
      }
    }
  }

  lemma {:induction false} ItemsAreHits(xs: seq<Value>, needles: seq<string>)
    ensures FindInItems(xs, needles) == Hits(ItemsPreOrder(xs), needles)
    decreases xs, 1
  {
    if xs != [] {
      var n := |xs| - 1;
      var init := xs[..n];
      ItemsAreHits(init, needles);
      DeepFindAllIsPreOrderHits(xs[n], needles);
      ItemsPreOrderSnoc(init, xs[n]);
      assert init + [xs[n]] == xs;
      HitsAppend(ItemsPreOrder(init), PreOrder(xs[n]), needles);
    }
  }

  lemma {:induction false} EntriesPreOrderSnoc(es: seq<Entry>, e: Entry)
    ensures EntriesPreOrder(es + [e]) == EntriesPreOrder(es) + [e] + PreOrder(e.val)
  {
    if es == [] {
      assert [e][1..] == [];
    } else {
      assert (es + [e])[1..] == es[1..] + [e];
      EntriesPreOrderSnoc(es[1..], e);
    }
  }

  lemma {:induction false} ItemsPreOrderSnoc(xs: seq<Value>, x: Value)
    ensures ItemsPreOrder(xs + [x]) == ItemsPreOrder(xs) + PreOrder(x)
  {
    if xs == [] {
      assert [x][1..] == [];
    } else {
      assert (xs + [x])[1..] == xs[1..] + [x];
      ItemsPreOrderSnoc(xs[1..], x);
    }
  }

  /** A value is a hit exactly when it belongs to a listed entry whose key holds a needle. */
  lemma {:induction false} HitsMembership(es: seq<Entry>, needles: seq<string>, x: Value)
    ensures x in Hits(es, needles) <==>
      exists i :: 0 <= i < |es| && es[i].val == x && MatchCount(Lower(es[i].key), needles) > 0
  {
    if es != [] {
      HitsMembership(es[1..], needles, x);
      if x in Hits(es[1..], needles) {
        var i :| 0 <= i < |es| - 1 && es[1..][i].val == x && MatchCount(Lower(es[1..][i].key), needles) > 0;
        assert es[i + 1] == es[1..][i];
      }
      if exists i :: 0 <= i < |es| && es[i].val == x && MatchCount(Lower(es[i].key), needles) > 0 {
        var i :| 0 <= i < |es| && es[i].val == x && MatchCount(Lower(es[i].key), needles) > 0;
        if i > 0 {
          assert es[1..][i - 1] == es[i];
        } else {
          assert Repeat(es[0].val, MatchCount(Lower(es[0].key), needles))[0] == x;
        }
      }
    }
  }

  /**
   * The search returns a value exactly when some entry of the tree, at any depth, holds it
   * under a key that contains one of the needles.
   */
  lemma DeepFindAllMembership(v: Value, needles: seq<string>, x: Value)
    ensures x in DeepFindAll(v, needles) <==>
      exists i :: 0 <= i < |PreOrder(v)| && PreOrder(v)[i].val == x
        && exists j :: 0 <= j < |needles| && Contains(Lower(PreOrder(v)[i].key), needles[j])
  {
    DeepFindAllIsPreOrderHits(v, needles);
    HitsMembership(PreOrder(v), needles, x);
  }

  /** The inner loop over the needles: the entry's value once for each needle in its key. */
  method OwnHits(e: Entry, needles: seq<string>) returns (hits: seq<Value>)
    ensures hits == Repeat(e.val, MatchCount(Lower(e.key), needles))
  {
    var kl := Lower(e.key);
    hits := [];
    for j := 0 to |needles|
      invariant hits == Repeat(e.val, MatchCount(kl, needles[..j]))
    {
      assert needles[..j + 1][..j] == needles[..j];
      if Contains(kl, needles[j]) {
        hits := hits + [e.val];
      }
    }
    assert needles[..|needles|] == needles;
  }

  /**
   * The source's loops: the walk of a dictionary's items, with the inner loop over the
   * needles, and the walk of a list, each recursing into the values.
   */
  method FindAll(obj: Value, needles: seq<string>) returns (res: seq<Value>)
    ensures res == DeepFindAll(obj, needles)
    decreases obj
  {
    res := [];
    match obj
    case Map(es) =>
      for i := 0 to |es|
        invariant res == FindInEntries(es[..i], needles)
      {
        var own := OwnHits(es[i], needles);
        var inner := FindAll(es[i].val, needles);
        res := res + (own + inner);
        assert es[..i + 1][..i] == es[..i];
      }
      assert es[..|es|] == es;
    case List(xs) =>
      for i := 0 to |xs|
        invariant res == FindInItems(xs[..i], needles)
      {
        var inner := FindAll(xs[i], needles);
        res := res + inner;
        assert xs[..i + 1][..i] == xs[..i];
      }
      assert xs[..|xs|] == xs;
    case _ =>
  }
}
