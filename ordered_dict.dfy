/** Python's `collections.OrderedDict` with string keys, as the extractor uses it:
    assigning to a key that is already present replaces its value and keeps its
    position; assigning to a new key appends it. The order in which keys are
    inserted is therefore the order of FIRST insertion, which `Dedup` states as a
    function of the sequence of inserted keys. */
module OrderedDicts {
  import opened Options

  /** Splitting off the last element of the appended part. */
  lemma AppendSnoc(xs: seq<string>, ys: seq<string>)
    requires ys != []
    ensures xs + ys == (xs + ys[..|ys| - 1]) + [ys[|ys| - 1]]
  {
  }

  lemma AppendPair(xs: seq<string>, a: string, b: string)
    ensures xs + [a, b] == (xs + [a]) + [b]
  {
  }

  /** A non-empty sequence is its prefix followed by its last element. */
  lemma InitLast(xs: seq<string>)
    requires xs != []
    ensures xs[..|xs| - 1] + [xs[|xs| - 1]] == xs
  {
  }

  /** No key occurs twice. */
  predicate Distinct(xs: seq<string>) {
    forall i, j :: 0 <= i < j < |xs| ==> xs[i] != xs[j]
  }

  /** The keys of a dictionary after inserting `xs` in order into an empty one:
      each element once, at the position of its first occurrence. */
  function Dedup(xs: seq<string>): (r: seq<string>)
    ensures forall x :: x in r <==> x in xs
    ensures Distinct(r)
    ensures |r| <= |xs|
  {
    if xs == [] then []
    else
      var init, x := xs[..|xs| - 1], xs[|xs| - 1];
      if x in init then Dedup(init) else Dedup(init) + [x]
  }

  /** The position of the first occurrence of `x` in `xs`. */
  function IndexOf(xs: seq<string>, x: string): (r: nat)
    requires x in xs
    ensures r < |xs| && xs[r] == x
    ensures forall j :: 0 <= j < r ==> xs[j] != x
  {
    if xs[0] == x then 0 else 1 + IndexOf(xs[1..], x)
  }

  /** The first occurrence is unique: any index that holds `x` with no earlier
      `x` is `IndexOf(xs, x)`. */
  lemma IndexOfUnique(xs: seq<string>, x: string, k: nat)
    requires k < |xs| && xs[k] == x
    requires forall j :: 0 <= j < k ==> xs[j] != x
    ensures IndexOf(xs, x) == k
  {
  }

  /** Appending to a sequence does not move the first occurrence of an element
      that was already there. */
  lemma IndexOfPrefix(xs: seq<string>, ys: seq<string>, x: string)
    requires x in xs
    ensures x in xs + ys && IndexOf(xs + ys, x) == IndexOf(xs, x)
  {
    IndexOfUnique(xs + ys, x, IndexOf(xs, x));
  }

  /** The keys of `Dedup(xs)` appear in the order of their first occurrence in
      `xs`: a later duplicate never moves a key. */
  lemma {:induction false} DedupFirstOccurrenceOrder(xs: seq<string>, i: nat, j: nat)
    requires i < j < |Dedup(xs)|
    ensures IndexOf(xs, Dedup(xs)[i]) < IndexOf(xs, Dedup(xs)[j])
  {
    var init, x := xs[..|xs| - 1], xs[|xs| - 1];
    assert xs == init + [x];
    var d := Dedup(init);
    IndexOfPrefix(init, [x], d[i]);
    if x in init {
      IndexOfPrefix(init, [x], d[j]);
      DedupFirstOccurrenceOrder(init, i, j);
    } else if j < |d| {
      IndexOfPrefix(init, [x], d[j]);
      DedupFirstOccurrenceOrder(init, i, j);
    } else {
      assert Dedup(xs)[j] == x;
      IndexOfUnique(xs, x, |xs| - 1);
    }
  }

  /** Inserting keys that are already distinct keeps them all, in order. */
  lemma {:induction false} DedupOfDistinct(xs: seq<string>)
    requires Distinct(xs)
    ensures Dedup(xs) == xs
  {
    if xs != [] {
      var init, x := xs[..|xs| - 1], xs[|xs| - 1];
      assert Distinct(init);
      DedupOfDistinct(init);
      assert forall k :: 0 <= k < |init| ==> init[k] == xs[k] != xs[|xs| - 1];
      assert x !in init;
      InitLast(xs);
    }
  }

  /** Appending one more key: it lands at the end unless already present. */
  lemma DedupSnoc(xs: seq<string>, x: string)
    ensures Dedup(xs + [x]) == if x in xs then Dedup(xs) else Dedup(xs) + [x]
  {
    assert (xs + [x])[..|xs|] == xs;
  }

  /** Appending two new, different keys to a distinct key list places them
      last, in that order. */
  lemma DedupAppendTwo(xs: seq<string>, a: string, b: string)
    requires a != b && a !in xs && b !in xs
    ensures Dedup(xs + [a, b]) == Dedup(xs) + [a, b]
  {
    DedupSnoc(xs, a);
    var xa := xs + [a];
    DedupSnoc(xa, b);
    AppendPair(xs, a, b);
    assert Dedup(xa) == Dedup(xs) + [a];
    assert b !in xa;
  }

  /** One more key inserted, seen from the sequence of all inserted keys: the
      `i`-th key of `keys` is appended unless it is already present. */
  lemma DedupStep(before: seq<string>, keys: seq<string>, i: nat)
    requires i < |keys|
    ensures (if keys[i] in Dedup(before + keys[..i]) then Dedup(before + keys[..i])
             else Dedup(before + keys[..i]) + [keys[i]])
         == Dedup(before + keys[..i + 1])
  {
    DedupSnoc(before + keys[..i], keys[i]);
    AppendSnoc(before, keys[..i + 1]);
    assert keys[..i + 1][..i] == keys[..i];
  }

  /** One more key inserted into a dictionary filled from a prefix of `keys`. */
  lemma DedupPrefixStep(keys: seq<string>, i: nat)
    requires i < |keys|
    ensures (if keys[i] in Dedup(keys[..i]) then Dedup(keys[..i]) else Dedup(keys[..i]) + [keys[i]])
         == Dedup(keys[..i + 1])
  {
    DedupSnoc(keys[..i], keys[i]);
    assert keys[..i + 1] == keys[..i] + [keys[i]];
  }

  /** Inserting more keys into a dictionary built from `xs` gives the same key
      order as inserting everything into an empty one. */
  lemma {:induction false} DedupAppend(xs: seq<string>, ys: seq<string>)
    ensures Dedup(Dedup(xs) + ys) == Dedup(xs + ys)
    decreases |ys|
  {
    var d := Dedup(xs);
    if ys == [] {
      DedupOfDistinct(d);
      assert d + ys == d && xs + ys == xs;
    } else {
      var init, y := ys[..|ys| - 1], ys[|ys| - 1];
      DedupAppend(xs, init);
      var di, xi := d + init, xs + init;
      DedupSnoc(di, y);
      DedupSnoc(xi, y);
      assert y in di <==> y in xi;
      AppendSnoc(d, ys);
      AppendSnoc(xs, ys);
    }
  }

  /** The value of `k` in `m`, or `None` where indexing would raise `KeyError`. */
  function MapGet<V>(m: map<string, V>, k: string): Option<V> {
    if k in m then Some(m[k]) else None
  }

  /** A mutable ordered dictionary from strings to `V`. */
  class OrderedDict<V> {
    var keys: seq<string>
    var entries: map<string, V>

    ghost predicate Valid()
      reads this
    {
      Distinct(keys) && entries.Keys == set k | k in keys
    }

    constructor ()
      ensures Valid() && keys == [] && entries == map[]
    {
      keys := [];
      entries := map[];
    }

    /** `d[k] = v` */
    method Set(k: string, v: V)
      requires Valid()
      modifies this
      ensures Valid()
      ensures keys == if k in old(keys) then old(keys) else old(keys) + [k]
      ensures entries == old(entries)[k := v]
    {
      if k !in keys {
        keys := keys + [k];
      }
      entries := entries[k := v];
    }

    /** `d[k]`, which raises `KeyError` (here `None`) for a missing key. */
    function Get(k: string): Option<V>
      reads this
    {
      MapGet(entries, k)
    }
  }
}
