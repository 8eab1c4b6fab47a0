/**
 * LINQ GroupBy: the elements are split into groups by key; the groups come in
 * the order in which their keys are first seen, and each group keeps its
 * elements in input order.
 */
module Grouping {
  import opened Seqs

  datatype Group<K, V> = Group(key: K, items: seq<V>)

  function Keys<K, V>(gs: seq<Group<K, V>>): seq<K> {
    seq(|gs|, i requires 0 <= i < |gs| => gs[i].key)
  }

  /** The key of every element, in input order. */
  function KeysOf<K, V>(xs: seq<V>, key: V -> K): seq<K> {
    seq(|xs|, i requires 0 <= i < |xs| => key(xs[i]))
  }

  /** The elements with key `k`, in input order. */
  function Select<K(==), V>(xs: seq<V>, key: V -> K, k: K): seq<V> {
    if xs == [] then []
    else
      var last := xs[|xs| - 1];
      Select(xs[..|xs| - 1], key, k) + (if key(last) == k then [last] else [])
  }

  /** The distinct keys, each at the place where it first occurs. */
  function FirstSeen<K(==)>(ks: seq<K>): seq<K> {
    if ks == [] then []
    else
      var earlier := FirstSeen(ks[..|ks| - 1]);
      if ks[|ks| - 1] in earlier then earlier else earlier + [ks[|ks| - 1]]
  }

  /** The concatenation of all groups' elements. */
  function Flatten<K, V>(gs: seq<Group<K, V>>): seq<V> {
    if gs == [] then [] else gs[0].items + Flatten(gs[1..])
  }

  /** Adds `x` to the group with key `k`, opening a new last group if there is none. */
  function Insert<K(==), V>(gs: seq<Group<K, V>>, k: K, x: V): seq<Group<K, V>> {
    if gs == [] then [Group(k, [x])]
    else if gs[0].key == k then [Group(k, gs[0].items + [x])] + gs[1..]
    else [gs[0]] + Insert(gs[1..], k, x)
  }

  /** GroupBy: the elements are added one after the other. */
  function GroupBy<K(==), V>(xs: seq<V>, key: V -> K): seq<Group<K, V>> {
    if xs == [] then []
    else
      var last := xs[|xs| - 1];
      Insert(GroupBy(xs[..|xs| - 1], key), key(last), last)
  }

  /** FirstSeen loses no key and invents none. */
  lemma {:induction false} FirstSeenMembers<K>(ks: seq<K>)
    ensures forall k :: k in FirstSeen(ks) <==> k in ks
  {
    if ks != [] {
      var init := ks[..|ks| - 1];
      FirstSeenMembers(init);
      assert ks == init + [ks[|ks| - 1]];
    }
  }

  /** FirstSeen keeps each key once. */
  lemma {:induction false} FirstSeenDistinct<K>(ks: seq<K>)
    ensures Distinct(FirstSeen(ks))
  {
    if ks != [] {
      var init := ks[..|ks| - 1];
      FirstSeenDistinct(init);
      var earlier := FirstSeen(init);
      if ks[|ks| - 1] !in earlier {
        DistinctConcat(earlier, [ks[|ks| - 1]]);
      }
    }
  }

  /** FirstSeen is no longer than its input, and starts with the first key. */
  lemma {:induction false} FirstSeenHead<K>(ks: seq<K>)
    ensures |FirstSeen(ks)| <= |ks|
    ensures ks != [] ==> |FirstSeen(ks)| > 0 && FirstSeen(ks)[0] == ks[0]
  {
    if ks != [] {
      var init := ks[..|ks| - 1];
      FirstSeenHead(init);
      if init != [] {
        assert init[0] == ks[0];
      }
    }
  }

  /** FirstSeen keeps each key once, loses none, and starts with the first key. */
  lemma FirstSeenSpec<K>(ks: seq<K>)
    ensures Distinct(FirstSeen(ks))
    ensures forall k :: k in FirstSeen(ks) <==> k in ks
    ensures |FirstSeen(ks)| <= |ks|
    ensures ks != [] ==> |FirstSeen(ks)| > 0 && FirstSeen(ks)[0] == ks[0]
  {
    FirstSeenMembers(ks);
    FirstSeenDistinct(ks);
    FirstSeenHead(ks);
  }

  /** An element is selected for `k` exactly when it is an input element with key `k`. */
  lemma {:induction false} SelectMembership<K, V>(xs: seq<V>, key: V -> K, k: K, v: V)
    ensures v in Select(xs, key, k) <==> v in xs && key(v) == k
  {
    if xs != [] {
      var init := xs[..|xs| - 1];
      SelectMembership(init, key, k, v);
      assert xs == init + [xs[|xs| - 1]];
    }
  }

  /** No element has a key that does not occur among the input's keys. */
  lemma {:induction false} SelectAbsent<K, V>(xs: seq<V>, key: V -> K, k: K)
    requires k !in KeysOf(xs, key)
    ensures Select(xs, key, k) == []
  {
    if xs != [] {
      var init := xs[..|xs| - 1];
      assert KeysOf(xs, key) == KeysOf(init, key) + [key(xs[|xs| - 1])];
      SelectAbsent(init, key, k);
    }
  }

  /** Insert touches only the group with key `k`, or appends a new group for it. */
  lemma {:induction false} InsertSpec<K, V>(gs: seq<Group<K, V>>, k: K, x: V)
    requires Distinct(Keys(gs))
    ensures var r := Insert(gs, k, x);
      && (k in Keys(gs) ==> |r| == |gs|)
      && (k !in Keys(gs) ==> |r| == |gs| + 1 && r[|gs|] == Group(k, [x]))
      && forall i :: 0 <= i < |gs| ==> r[i] == Group(gs[i].key, gs[i].items + (if gs[i].key == k then [x] else []))
  {
    if gs != [] {
      assert Keys(gs[1..]) == Keys(gs)[1..];
      if gs[0].key != k {
        InsertSpec(gs[1..], k, x);
      } else {
        assert Keys(gs)[0] == k;
        forall i | 1 <= i < |gs| ensures gs[i].key != k {
          assert Keys(gs)[0] != Keys(gs)[i];
        }
      }
    }
  }

  /** Insert adds exactly `x` to the elements held by the groups. */
  lemma {:induction false} InsertFlatten<K, V>(gs: seq<Group<K, V>>, k: K, x: V)
    ensures multiset(Flatten(Insert(gs, k, x))) == multiset(Flatten(gs)) + multiset{x}
  {
    if gs != [] {
      var r := Insert(gs, k, x);
      if gs[0].key == k {
        assert r[0] == Group(k, gs[0].items + [x]) && r[1..] == gs[1..];
      } else {
        InsertFlatten(gs[1..], k, x);
        assert r[0] == gs[0] && r[1..] == Insert(gs[1..], k, x);
      }
    }
  }

  /**
   * What GroupBy computes: the group keys are the input's distinct keys in
   * first-seen order, and each group holds exactly the input elements with its
   * key, in input order.
   */
  lemma {:induction false} GroupBySpec<K, V>(xs: seq<V>, key: V -> K)
    ensures Keys(GroupBy(xs, key)) == FirstSeen(KeysOf(xs, key))
    ensures Distinct(Keys(GroupBy(xs, key)))
    ensures forall i :: 0 <= i < |GroupBy(xs, key)| ==>
              GroupBy(xs, key)[i].items == Select(xs, key, GroupBy(xs, key)[i].key)
  {
    FirstSeenSpec(KeysOf(xs, key));
    if xs != [] {
      var init, x := xs[..|xs| - 1], xs[|xs| - 1];
      GroupBySpec(init, key);
      var gs := GroupBy(init, key);
      var r := GroupBy(xs, key);
      InsertSpec(gs, key(x), x);
      assert KeysOf(xs, key)[..|xs| - 1] == KeysOf(init, key);
      FirstSeenSpec(KeysOf(init, key));
      assert Keys(r) == FirstSeen(KeysOf(xs, key));
      forall i | 0 <= i < |r| ensures r[i].items == Select(xs, key, r[i].key) {
        if i == |gs| {
          SelectAbsent(init, key, key(x));
        }
      }
    }
  }

  /** GroupBy loses and duplicates nothing: its groups hold a permutation of the input. */
  lemma {:induction false} GroupByPermutation<K, V>(xs: seq<V>, key: V -> K)
    ensures multiset(Flatten(GroupBy(xs, key))) == multiset(xs)
  {
    if xs != [] {
      var init := xs[..|xs| - 1];
      GroupByPermutation(init, key);
      InsertFlatten(GroupBy(init, key), key(xs[|xs| - 1]), xs[|xs| - 1]);
      assert xs == init + [xs[|xs| - 1]];
    }
  }

  /** Every input element lies in exactly one group, the one for its own key. */
  lemma ExactlyOneGroup<K, V>(xs: seq<V>, key: V -> K, v: V)
    requires v in xs
    ensures exists i :: 0 <= i < |GroupBy(xs, key)| && GroupBy(xs, key)[i].key == key(v) && v in GroupBy(xs, key)[i].items
    ensures forall i, j ::
              (0 <= i < |GroupBy(xs, key)| && 0 <= j < |GroupBy(xs, key)| &&
               v in GroupBy(xs, key)[i].items && v in GroupBy(xs, key)[j].items) ==> i == j
  {
    var r := GroupBy(xs, key);
    GroupBySpec(xs, key);
    FirstSeenSpec(KeysOf(xs, key));
    var p :| 0 <= p < |xs| && xs[p] == v;
    assert KeysOf(xs, key)[p] == key(v);
    assert key(v) in FirstSeen(KeysOf(xs, key));
    var i :| 0 <= i < |r| && Keys(r)[i] == key(v);
    SelectMembership(xs, key, key(v), v);
    forall i, j | 0 <= i < |r| && 0 <= j < |r| && v in r[i].items && v in r[j].items
      ensures i == j
    {
      SelectMembership(xs, key, r[i].key, v);
      SelectMembership(xs, key, r[j].key, v);
      assert Keys(r)[i] == Keys(r)[j];
    }
  }
}
