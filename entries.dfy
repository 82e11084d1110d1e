/**
 * The per-entry transform applied to the directory's search results:
 * `entries.map { |entry| next unless …; {name, uri} }.compact`.
 */
module Entries {
  import opened Wrappers

  /**
   * One directory entry as the transform reads it: its distinguished name
   * and its `dnshostname` attribute, `None` when the entry has no attribute
   * of that name.
   */
  datatype Entry = Entry(dn: string, dnshostname: Option<seq<string>>)

  /** One inventory target: the record with exactly the keys `name` and `uri`. */
  datatype Target = Target(name: string, uri: string)

  /** The entry carries at least one `dnshostname` value. */
  predicate HasHostname(e: Entry)
  {
    e.dnshostname.Some? && |e.dnshostname.value| > 0
  }

  /**
   * The block given to `map`: `None` (Ruby's `next`, yielding `nil`) for an
   * entry without the attribute or with an empty value list, otherwise the
   * target named by the entry's DN and addressed by its first host name.
   */
  function EntryToTarget(e: Entry): (t: Option<Target>)
    ensures t.Some? <==> HasHostname(e)
    ensures t.Some? ==> t.value.name == e.dn && t.value.uri == e.dnshostname.value[0]
  {
    if e.dnshostname.None? then None
    else if |e.dnshostname.value| == 0 then None
    else Some(Target(e.dn, e.dnshostname.value[0]))
  }

  /** Ruby's `compact`: the non-`nil` elements in their order. */
  function Compact<T>(xs: seq<Option<T>>): seq<T>
  {
    if xs == [] then []
    else (if xs[0].Some? then [xs[0].value] else []) + Compact(xs[1..])
  }

  /** The targets the search results turn into: `map` then `compact`. */
  function ResolveTargets(entries: seq<Entry>): seq<Target>
  {
    Compact(seq(|entries|, i requires 0 <= i < |entries| => EntryToTarget(entries[i])))
  }

  /** The positions of the entries that are kept, in increasing order. */
  function KeptIndices(entries: seq<Entry>): (idx: seq<nat>)
    ensures forall k :: 0 <= k < |idx| ==> idx[k] < |entries| && HasHostname(entries[idx[k]])
    ensures forall k, l :: 0 <= k < l < |idx| ==> idx[k] < idx[l]
    ensures forall i :: 0 <= i < |entries| && HasHostname(entries[i]) ==> i in idx
  {
    if entries == [] then []
    else
      var n := |entries| - 1;
      KeptIndices(entries[..n]) + (if HasHostname(entries[n]) then [n] else [])
  }

  // ---------------------------------------------------------------------
  // Properties

  /** `compact` distributes over concatenation. */
  lemma {:induction false} CompactAppend<T>(a: seq<Option<T>>, b: seq<Option<T>>)
    ensures Compact(a + b) == Compact(a) + Compact(b)
    decreases |a|
  {
    if a != [] {
      assert (a + b)[0] == a[0];
      assert (a + b)[1..] == a[1..] + b;
      CompactAppend(a[1..], b);
    } else {
      assert a + b == b;
    }
  }

  /**
   * Resolving a stream piece by piece gives the same targets as resolving it
   * at once: each entry is handled on its own, in delivery order.
   */
  lemma ResolveTargetsAppend(a: seq<Entry>, b: seq<Entry>)
    ensures ResolveTargets(a + b) == ResolveTargets(a) + ResolveTargets(b)
  {
    var f := (es: seq<Entry>) => seq(|es|, i requires 0 <= i < |es| => EntryToTarget(es[i]));
    assert f(a + b) == f(a) + f(b);
    CompactAppend(f(a), f(b));
  }

  /** A single entry yields its target when it has a host name, and nothing otherwise. */
  lemma ResolveTargetsSingle(e: Entry)
    ensures ResolveTargets([e]) == if HasHostname(e) then [Target(e.dn, e.dnshostname.value[0])] else []
  {
    var xs := seq(1, i requires 0 <= i < 1 => EntryToTarget([e][i]));
    assert xs == [EntryToTarget(e)];
    assert xs[1..] == [];
    assert Compact(xs[1..]) == [];
  }

  /**
   * The output is the input filtered in order: the k-th target is built from
   * the k-th kept entry, and the kept entries are exactly those with a host
   * name, at strictly increasing (so distinct) positions.
   */
  lemma {:induction false} ResolveTargetsOrdered(entries: seq<Entry>)
    ensures |ResolveTargets(entries)| == |KeptIndices(entries)|
    ensures forall k :: 0 <= k < |KeptIndices(entries)| ==>
      ResolveTargets(entries)[k] == Target(entries[KeptIndices(entries)[k]].dn,
                                           entries[KeptIndices(entries)[k]].dnshostname.value[0])
    decreases |entries|
  {
    if entries != [] {
      var n := |entries| - 1;
      var init := entries[..n];
      assert entries == init + [entries[n]];
      ResolveTargetsOrdered(init);
      ResolveTargetsAppend(init, [entries[n]]);
      ResolveTargetsSingle(entries[n]);
      assert forall i :: 0 <= i < n ==> init[i] == entries[i];
    }
  }

  /** No more targets than entries. */
  lemma ResolveTargetsLength(entries: seq<Entry>)
    ensures |ResolveTargets(entries)| <= |entries|
  {
    ResolveTargetsOrdered(entries);
    KeptIndicesLength(entries);
  }

  /** There are no more kept positions than entries. */
  lemma {:induction false} KeptIndicesLength(entries: seq<Entry>)
    ensures |KeptIndices(entries)| <= |entries|
    decreases |entries|
  {
    if entries != [] {
      KeptIndicesLength(entries[..|entries| - 1]);
    }
  }

  /** When every entry has a host name, every entry yields its target, in order. */
  lemma AllKept(entries: seq<Entry>)
    requires forall i :: 0 <= i < |entries| ==> HasHostname(entries[i])
    ensures |ResolveTargets(entries)| == |entries|
    ensures forall i :: 0 <= i < |entries| ==>
      HasHostname(entries[i]) &&
      ResolveTargets(entries)[i] == Target(entries[i].dn, entries[i].dnshostname.value[0])
  {
    var idx := KeptIndices(entries);
    ResolveTargetsOrdered(entries);
    KeptIndicesLength(entries);
    AllIndicesKept(entries);
  }

  /** When every entry has a host name, every position is kept. */
  lemma {:induction false} AllIndicesKept(entries: seq<Entry>)
    requires forall i :: 0 <= i < |entries| ==> HasHostname(entries[i])
    ensures forall k :: 0 <= k < |KeptIndices(entries)| ==> KeptIndices(entries)[k] == k
    ensures |KeptIndices(entries)| == |entries|
    decreases |entries|
  {
    if entries != [] {
      AllIndicesKept(entries[..|entries| - 1]);
    }
  }

  /** When no entry has a host name, there are no targets. */
  lemma {:induction false} NoneKept(entries: seq<Entry>)
    requires forall i :: 0 <= i < |entries| ==> !HasHostname(entries[i])
    ensures KeptIndices(entries) == []
    ensures ResolveTargets(entries) == []
    decreases |entries|
  {
    if entries != [] {
      NoneKept(entries[..|entries| - 1]);
    }
    ResolveTargetsOrdered(entries);
  }
}
