/**
 * Grouping keyed entries the way the controller's dictionaries do: a key is
 * added when it is first seen, entries are appended to its list (or added to
 * its count) in input order, and the dictionary is then enumerated in the
 * order the keys were added.
 */
module Grouping {

  predicate HasKey<K(==), V>(entries: seq<(K, V)>, k: K)
  {
    exists i :: 0 <= i < |entries| && entries[i].0 == k
  }

  /** The distinct keys of the entries, in the order they first occur. */
  function Keys<K(==,!new), V>(entries: seq<(K, V)>): (ks: seq<K>)
    ensures forall i, j :: 0 <= i < j < |ks| ==> ks[i] != ks[j]
    ensures forall k :: k in ks <==> HasKey(entries, k)
  {
    if |entries| == 0 then []
    else
      var init := entries[..|entries| - 1];
      var k := entries[|entries| - 1].0;
      assert forall k' :: HasKey(entries, k') <==> HasKey(init, k') || k' == k by {
        forall k' | HasKey(entries, k') && k' != k ensures HasKey(init, k') {
          var i :| 0 <= i < |entries| && entries[i].0 == k';
          assert init[i] == entries[i];
        }
        forall k' | HasKey(init, k') ensures HasKey(entries, k') {
          var i :| 0 <= i < |init| && init[i].0 == k';
          assert entries[i] == init[i];
        }
      }
      var ks := Keys(init);
      if k in ks then ks else ks + [k]
  }

  /** The values of the entries with key `k`, in input order. */
  function ValuesOf<K(==), V>(entries: seq<(K, V)>, k: K): (vs: seq<V>)
    ensures |vs| <= |entries|
    ensures |vs| > 0 <==> HasKey(entries, k)
    ensures forall j :: 0 <= j < |vs| ==> exists i :: 0 <= i < |entries| && entries[i] == (k, vs[j])
  {
    if |entries| == 0 then []
    else
      var init := entries[..|entries| - 1];
      var last := entries[|entries| - 1];
      var vs := ValuesOf(init, k);
      assert HasKey(entries, k) <==> HasKey(init, k) || last.0 == k by {
        if HasKey(entries, k) && last.0 != k {
          var i :| 0 <= i < |entries| && entries[i].0 == k;
          assert init[i] == entries[i];
        }
        if HasKey(init, k) {
          var i :| 0 <= i < |init| && init[i].0 == k;
          assert entries[i] == init[i];
        }
      }
      assert forall i :: 0 <= i < |init| ==> entries[i] == init[i];
      if last.0 == k then vs + [last.1] else vs
  }

  /** The entries grouped by key: each key with its values, keys in first-occurrence order. */
  function Groups<K(==,!new), V>(entries: seq<(K, V)>): seq<(K, seq<V>)>
  {
    GroupsFor(entries, Keys(entries))
  }

  function GroupsFor<K(==), V>(entries: seq<(K, V)>, ks: seq<K>): (gs: seq<(K, seq<V>)>)
    ensures |gs| == |ks|
    ensures forall j :: 0 <= j < |ks| ==> gs[j] == (ks[j], ValuesOf(entries, ks[j]))
  {
    if |ks| == 0 then []
    else GroupsFor(entries, ks[..|ks| - 1]) + [(ks[|ks| - 1], ValuesOf(entries, ks[|ks| - 1]))]
  }

  /** The sum of the weights of the values. */
  function Total<V>(vs: seq<V>, weight: V -> nat): nat
  {
    if |vs| == 0 then 0 else Total(vs[..|vs| - 1], weight) + weight(vs[|vs| - 1])
  }

  /** The sum of the weights of the entries' values. */
  function EntryTotal<K, V>(entries: seq<(K, V)>, weight: V -> nat): nat
  {
    if |entries| == 0 then 0 else EntryTotal(entries[..|entries| - 1], weight) + weight(entries[|entries| - 1].1)
  }

  /** The sum of the weights over all groups. */
  function GroupTotal<K, V>(gs: seq<(K, seq<V>)>, weight: V -> nat): nat
  {
    if |gs| == 0 then 0 else GroupTotal(gs[..|gs| - 1], weight) + Total(gs[|gs| - 1].1, weight)
  }

  function Natural(n: nat): nat { n }

  /** The sum of the values of the entries with key `k`. */
  function SumOf<K(==)>(entries: seq<(K, nat)>, k: K): nat
  {
    if |entries| == 0 then 0
    else SumOf(entries[..|entries| - 1], k) + if entries[|entries| - 1].0 == k then entries[|entries| - 1].1 else 0
  }

  /** Each key with the sum of its values, keys in first-occurrence order. */
  function SumsByKey<K(==,!new)>(entries: seq<(K, nat)>): seq<(K, nat)>
  {
    SumsFor(entries, Keys(entries))
  }

  function SumsFor<K(==)>(entries: seq<(K, nat)>, ks: seq<K>): (sums: seq<(K, nat)>)
    ensures |sums| == |ks|
    ensures forall j :: 0 <= j < |ks| ==> sums[j] == (ks[j], SumOf(entries, ks[j]))
  {
    if |ks| == 0 then []
    else SumsFor(entries, ks[..|ks| - 1]) + [(ks[|ks| - 1], SumOf(entries, ks[|ks| - 1]))]
  }

  /**
   * The result of a grouped sum: its keys are distinct, they are exactly the
   * keys of the entries, and each carries the sum of that key's values.
   */
  lemma SumsByKeyMeaning<K(!new)>(entries: seq<(K, nat)>)
    ensures var sums := SumsByKey(entries);
      && (forall i, j :: 0 <= i < j < |sums| ==> sums[i].0 != sums[j].0)
      && (forall k :: (exists i :: 0 <= i < |sums| && sums[i].0 == k) <==> HasKey(entries, k))
      && (forall i :: 0 <= i < |sums| ==> sums[i].1 == SumOf(entries, sums[i].0))
  {
    var ks := Keys(entries);
    var sums := SumsByKey(entries);
    forall k ensures (exists i :: 0 <= i < |sums| && sums[i].0 == k) <==> k in ks {
      if k in ks {
        var i :| 0 <= i < |ks| && ks[i] == k;
        assert sums[i].0 == k;
      }
    }
  }

  lemma KeysAppend<K(!new), V>(entries: seq<(K, V)>, k: K, v: V)
    ensures Keys(entries + [(k, v)]) == if k in Keys(entries) then Keys(entries) else Keys(entries) + [k]
  {
    assert (entries + [(k, v)])[..|entries|] == entries;
  }

  /**
   * A dictionary of lists built from the entries: `order` lists its keys in
   * the order they were added, and each key maps to its values.
   */
  ghost predicate Tracks<K(!new), V>(order: seq<K>, m: map<K, seq<V>>, entries: seq<(K, V)>)
  {
    && order == Keys(entries)
    && (forall k :: k in m <==> k in order)
    && forall k :: k in order ==> m[k] == ValuesOf(entries, k)
  }

  /**
   * Appending a value to its key's list (the key appended to the order and
   * created empty on first sight) tracks one more entry.
   */
  lemma TracksAppend<K(!new), V>(order: seq<K>, m: map<K, seq<V>>, entries: seq<(K, V)>, k: K, v: V,
                                 order': seq<K>, m': map<K, seq<V>>)
    requires Tracks(order, m, entries)
    requires order' == if k in m then order else order + [k]
    requires forall key :: key in m' <==> key in m || key == k
    requires k in m' && m'[k] == (if k in m then m[k] else []) + [v]
    requires forall key :: key in m && key != k ==> m'[key] == m[key]
    ensures Tracks(order', m', entries + [(k, v)])
  {
    KeysAppend(entries, k, v);
    forall key | key in order' ensures m'[key] == ValuesOf(entries + [(k, v)], key) {
      ValuesOfAppend(entries, k, v, key);
    }
  }

  /** A dictionary of sums built from the entries: each key maps to the sum of its values. */
  ghost predicate TracksSums<K(!new)>(order: seq<K>, m: map<K, nat>, entries: seq<(K, nat)>)
  {
    && order == Keys(entries)
    && (forall k :: k in m <==> k in order)
    && forall k :: k in order ==> m[k] == SumOf(entries, k)
  }

  /**
   * Adding a value to its key's sum (the key appended to the order and
   * created at zero on first sight) tracks one more entry.
   */
  lemma TracksSumsAppend<K(!new)>(order: seq<K>, m: map<K, nat>, entries: seq<(K, nat)>, k: K, v: nat,
                                  order': seq<K>, m': map<K, nat>)
    requires TracksSums(order, m, entries)
    requires order' == if k in m then order else order + [k]
    requires forall key :: key in m' <==> key in m || key == k
    requires k in m' && m'[k] == (if k in m then m[k] else 0) + v
    requires forall key :: key in m && key != k ==> m'[key] == m[key]
    ensures TracksSums(order', m', entries + [(k, v)])
  {
    KeysAppend(entries, k, v);
    assert (entries + [(k, v)])[..|entries|] == entries;
    if k !in m {
      SumOfAbsent(entries, k);
    }
  }

  /** A key no entry has sums to zero. */
  lemma {:induction false} SumOfAbsent<K>(entries: seq<(K, nat)>, k: K)
    requires !HasKey(entries, k)
    ensures SumOf(entries, k) == 0
  {
    if |entries| > 0 {
      var init := entries[..|entries| - 1];
      assert forall i :: 0 <= i < |init| ==> init[i] == entries[i];
      SumOfAbsent(init, k);
    }
  }

  /** The sum of a key's values is the total of its value list. */
  lemma {:induction false} SumOfIsTotal<K>(entries: seq<(K, nat)>, k: K)
    ensures SumOf(entries, k) == Total(ValuesOf(entries, k), Natural)
  {
    if |entries| > 0 {
      var init, last := entries[..|entries| - 1], entries[|entries| - 1];
      SumOfIsTotal(init, k);
      assert entries == init + [last];
      ValuesOfAppend(init, last.0, last.1, k);
      if last.0 == k {
        TotalAppend(ValuesOf(init, k), last.1, Natural);
      }
    }
  }

  lemma ValuesOfAppend<K, V>(entries: seq<(K, V)>, k: K, v: V, key: K)
    ensures ValuesOf(entries + [(k, v)], key) == if key == k then ValuesOf(entries, key) + [v] else ValuesOf(entries, key)
  {
    assert (entries + [(k, v)])[..|entries|] == entries;
  }

  lemma TotalAppend<V>(vs: seq<V>, v: V, weight: V -> nat)
    ensures Total(vs + [v], weight) == Total(vs, weight) + weight(v)
  {
    assert (vs + [v])[..|vs|] == vs;
  }

  lemma GroupTotalLast<K, V>(gs: seq<(K, seq<V>)>, weight: V -> nat)
    requires |gs| > 0
    ensures GroupTotal(gs, weight) == GroupTotal(gs[..|gs| - 1], weight) + Total(gs[|gs| - 1].1, weight)
  {
  }

  /** Adding one entry adds its weight to the group of its key and leaves the others alone. */
  lemma {:induction false} GroupTotalStep<K, V>(entries: seq<(K, V)>, k: K, v: V, ks: seq<K>, weight: V -> nat)
    requires forall i, j :: 0 <= i < j < |ks| ==> ks[i] != ks[j]
    ensures GroupTotal(GroupsFor(entries + [(k, v)], ks), weight)
         == GroupTotal(GroupsFor(entries, ks), weight) + (if k in ks then weight(v) else 0)
  {
    if |ks| > 0 {
      var init, last := ks[..|ks| - 1], ks[|ks| - 1];
      GroupTotalStep(entries, k, v, init, weight);
      var before := ValuesOf(entries, last);
      ValuesOfAppend(entries, k, v, last);
      if last == k {
        TotalAppend(before, v, weight);
      }
      var gsLonger, gs := GroupsFor(entries + [(k, v)], ks), GroupsFor(entries, ks);
      assert gsLonger[..|ks| - 1] == GroupsFor(entries + [(k, v)], init);
      assert gs[..|ks| - 1] == GroupsFor(entries, init);
      GroupTotalLast(gsLonger, weight);
      GroupTotalLast(gs, weight);
      assert k in ks <==> k in init || k == last;
      assert k in init ==> k != last;
    }
  }

  /** Grouping loses and duplicates nothing: the groups' weights add up to the entries' weight. */
  lemma {:induction false} GroupsTotal<K(!new), V>(entries: seq<(K, V)>, weight: V -> nat)
    ensures GroupTotal(Groups(entries), weight) == EntryTotal(entries, weight)
  {
    if |entries| > 0 {
      var init := entries[..|entries| - 1];
      var (k, v) := entries[|entries| - 1];
      assert entries == init + [(k, v)];
      GroupsTotal(init, weight);
      GroupTotalStep(init, k, v, Keys(init), weight);
      var ks := Keys(init);
      if k !in ks {
        var gs := GroupsFor(entries, ks + [k]);
        assert gs[..|gs| - 1] == GroupsFor(entries, ks);
        assert ValuesOf(init, k) == [];
        assert ValuesOf(entries, k) == [v];
        assert Total([v], weight) == weight(v) by {
          assert [v][..0] == [];
        }
      }
    }
  }

  lemma {:induction false} SumsAreGroupTotals<K>(entries: seq<(K, nat)>, ks: seq<K>)
    ensures EntryTotal(SumsFor(entries, ks), Natural) == GroupTotal(GroupsFor(entries, ks), Natural)
  {
    if |ks| > 0 {
      var init := ks[..|ks| - 1];
      SumsAreGroupTotals(entries, init);
      var sums, gs := SumsFor(entries, ks), GroupsFor(entries, ks);
      assert sums[..|sums| - 1] == SumsFor(entries, init);
      assert gs[..|gs| - 1] == GroupsFor(entries, init);
      SumOfIsTotal(entries, ks[|ks| - 1]);
    }
  }

  /** A grouped sum adds up to the sum of all the entries. */
  lemma SumsByKeyTotal<K(!new)>(entries: seq<(K, nat)>)
    ensures EntryTotal(SumsByKey(entries), Natural) == EntryTotal(entries, Natural)
  {
    SumsAreGroupTotals(entries, Keys(entries));
    GroupsTotal(entries, Natural);
  }
}
