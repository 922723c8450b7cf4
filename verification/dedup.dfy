/**
 * `_deduplicate`: shareholders whose names agree after lower-casing and
 * stripping are duplicates; the first one of every such group is kept.
 *
 * The specification and its lemmas are generic in the key function, so the
 * proofs never look inside `Key`; `Deduplicate` instantiates it with `NameKey`.
 */
module Dedup {
  import opened Text
  import opened Models
  import opened NameRules

  /** The de-duplication key `name.lower().strip()`. */
  function Key(name: string): string
  {
    Strip(Lower(name))
  }

  /** The key of a shareholder. */
  function NameKey(s: Shareholder): string
  {
    Key(s.name)
  }

  function Keys(xs: seq<Shareholder>, key: Shareholder -> string): set<string>
  {
    set i | 0 <= i < |xs| :: key(xs[i])
  }

  /** The specification: the shareholders whose key has not been seen earlier in the list, in order. */
  function Deduplicated(xs: seq<Shareholder>, key: Shareholder -> string): seq<Shareholder>
  {
    if xs == [] then []
    else
      var prefix := xs[..|xs| - 1];
      var last := xs[|xs| - 1];
      if key(last) in Keys(prefix, key) then Deduplicated(prefix, key)
      else Deduplicated(prefix, key) + [last]
  }

  lemma KeysSnoc(xs: seq<Shareholder>, x: Shareholder, key: Shareholder -> string)
    ensures Keys(xs + [x], key) == Keys(xs, key) + {key(x)}
  {
    var ys := xs + [x];
    forall k | k in Keys(ys, key)
      ensures k in Keys(xs, key) + {key(x)}
    {
      var i :| 0 <= i < |ys| && key(ys[i]) == k;
      if i < |xs| {
        assert ys[i] == xs[i];
      }
    }
    forall k | k in Keys(xs, key)
      ensures k in Keys(ys, key)
    {
      var i :| 0 <= i < |xs| && key(xs[i]) == k;
      assert ys[i] == xs[i];
    }
    assert ys[|xs|] == x;
  }

  lemma DeduplicatedSnoc(xs: seq<Shareholder>, x: Shareholder, key: Shareholder -> string)
    ensures Deduplicated(xs + [x], key)
            == if key(x) in Keys(xs, key) then Deduplicated(xs, key) else Deduplicated(xs, key) + [x]
  {
    assert (xs + [x])[..|xs|] == xs;
  }

  /**
   * The loop of `_deduplicate`: one pass with a `seen` set of keys, appending
   * each shareholder whose key is new.
   */
  method DeduplicateBy(xs: seq<Shareholder>, key: Shareholder -> string) returns (unique: seq<Shareholder>)
    ensures unique == Deduplicated(xs, key)
  {
    var seen: set<string> := {};
    unique := [];
    for i := 0 to |xs|
      invariant unique == Deduplicated(xs[..i], key)
      invariant seen == Keys(xs[..i], key)
    {
      var normalized := key(xs[i]);
      assert xs[..i + 1] == xs[..i] + [xs[i]];
      KeysSnoc(xs[..i], xs[i], key);
      DeduplicatedSnoc(xs[..i], xs[i], key);
      if normalized !in seen {
        seen := seen + {normalized};
        unique := unique + [xs[i]];
      }
    }
    assert xs[..|xs|] == xs;
  }

  /** `_deduplicate` with its key `name.lower().strip()`. */
  method Deduplicate(xs: seq<Shareholder>) returns (unique: seq<Shareholder>)
    ensures unique == Deduplicated(xs, NameKey)
  {
    unique := DeduplicateBy(xs, NameKey);
  }

  // ------------------------------------------------------------ properties

  /** Every key of the input survives: nothing but duplicates is dropped. */
  lemma {:induction false} DedupKeepsKeys(xs: seq<Shareholder>, key: Shareholder -> string)
    ensures Keys(Deduplicated(xs, key), key) == Keys(xs, key)
    decreases |xs|
  {
    if xs != [] {
      var prefix := xs[..|xs| - 1];
      var last := xs[|xs| - 1];
      assert xs == prefix + [last];
      DedupKeepsKeys(prefix, key);
      KeysSnoc(prefix, last, key);
      if key(last) !in Keys(prefix, key) {
        KeysSnoc(Deduplicated(prefix, key), last, key);
      }
    }
  }

  /** No two elements of `ys` share a key. */
  predicate DistinctKeys(ys: seq<Shareholder>, key: Shareholder -> string)
  {
    forall i, j :: 0 <= i < j < |ys| ==> key(ys[i]) != key(ys[j])
  }

  /** No two kept shareholders share a key. */
  lemma {:induction false} DedupDistinct(xs: seq<Shareholder>, key: Shareholder -> string)
    ensures DistinctKeys(Deduplicated(xs, key), key)
    decreases |xs|
  {
    if xs != [] {
      var prefix := xs[..|xs| - 1];
      var last := xs[|xs| - 1];
      DedupDistinct(prefix, key);
      DedupKeepsKeys(prefix, key);
      var d := Deduplicated(prefix, key);
      if key(last) !in Keys(prefix, key) {
        forall i | 0 <= i < |d|
          ensures key(d[i]) != key(last)
        {
          assert key(d[i]) in Keys(d, key);
        }
      }
    }
  }

  /** `a` is `b` with some elements left out, the rest in their order. */
  predicate Subsequence<T(==)>(a: seq<T>, b: seq<T>)
  {
    if b == [] then a == []
    else
      (a != [] && a[|a| - 1] == b[|b| - 1] && Subsequence(a[..|a| - 1], b[..|b| - 1]))
      || Subsequence(a, b[..|b| - 1])
  }

  /** The result keeps input elements in their input order. */
  lemma {:induction false} DedupIsSubsequence(xs: seq<Shareholder>, key: Shareholder -> string)
    ensures Subsequence(Deduplicated(xs, key), xs)
    decreases |xs|
  {
    if xs != [] {
      var prefix := xs[..|xs| - 1];
      DedupIsSubsequence(prefix, key);
      var r := Deduplicated(xs, key);
      if r != Deduplicated(prefix, key) {
        assert r[..|r| - 1] == Deduplicated(prefix, key);
      }
    }
  }

  /** No shareholder with the same key comes before position i. */
  predicate FirstOfKey(xs: seq<Shareholder>, i: nat, key: Shareholder -> string)
    requires i < |xs|
  {
    forall j :: 0 <= j < i ==> key(xs[j]) != key(xs[i])
  }

  /** The first shareholder of every key is kept. */
  lemma {:induction false} FirstOccurrenceKept(xs: seq<Shareholder>, i: nat, key: Shareholder -> string)
    requires i < |xs| && FirstOfKey(xs, i, key)
    ensures xs[i] in Deduplicated(xs, key)
    decreases |xs|
  {
    var prefix := xs[..|xs| - 1];
    if i == |xs| - 1 {
      forall k | k in Keys(prefix, key)
        ensures k != key(xs[i])
      {
        var j :| 0 <= j < |prefix| && key(prefix[j]) == k;
        assert prefix[j] == xs[j];
      }
    } else {
      assert prefix[i] == xs[i];
      FirstOccurrenceKept(prefix, i, key);
    }
  }

  /** Every kept shareholder is the first of its key in the input. */
  lemma {:induction false} OnlyFirstOccurrencesKept(xs: seq<Shareholder>, y: Shareholder, key: Shareholder -> string)
    requires y in Deduplicated(xs, key)
    ensures exists i :: 0 <= i < |xs| && xs[i] == y && FirstOfKey(xs, i, key)
    decreases |xs|
  {
    var prefix := xs[..|xs| - 1];
    var last := xs[|xs| - 1];
    if y in Deduplicated(prefix, key) {
      OnlyFirstOccurrencesKept(prefix, y, key);
      var i :| 0 <= i < |prefix| && prefix[i] == y && FirstOfKey(prefix, i, key);
      assert xs[i] == prefix[i];
      assert FirstOfKey(xs, i, key) by {
        forall j | 0 <= j < i
          ensures key(xs[j]) != key(xs[i])
        {
          assert xs[j] == prefix[j];
        }
      }
    } else {
      assert y == last && key(last) !in Keys(prefix, key);
      assert FirstOfKey(xs, |xs| - 1, key) by {
        forall j | 0 <= j < |xs| - 1
          ensures key(xs[j]) != key(last)
        {
          assert xs[j] == prefix[j];
          assert key(prefix[j]) in Keys(prefix, key);
        }
      }
    }
  }

  /** A list whose keys are already pairwise distinct is left unchanged. */
  lemma {:induction false} DistinctUnchanged(ys: seq<Shareholder>, key: Shareholder -> string)
    requires DistinctKeys(ys, key)
    ensures Deduplicated(ys, key) == ys
    decreases |ys|
  {
    if ys != [] {
      var prefix := ys[..|ys| - 1];
      assert DistinctKeys(prefix, key) by {
        forall i, j | 0 <= i < j < |prefix|
          ensures key(prefix[i]) != key(prefix[j])
        {
          assert prefix[i] == ys[i] && prefix[j] == ys[j];
        }
      }
      DistinctUnchanged(prefix, key);
      forall k | k in Keys(prefix, key)
        ensures k != key(ys[|ys| - 1])
      {
        var i :| 0 <= i < |prefix| && key(prefix[i]) == k;
        assert prefix[i] == ys[i];
      }
      assert ys == prefix + [ys[|ys| - 1]];
    }
  }

  /** De-duplicating twice is the same as de-duplicating once. */
  lemma DedupIdempotent(xs: seq<Shareholder>, key: Shareholder -> string)
    ensures Deduplicated(Deduplicated(xs, key), key) == Deduplicated(xs, key)
  {
    DedupDistinct(xs, key);
    DistinctUnchanged(Deduplicated(xs, key), key);
  }

  /** Duplicates by key are always classified alike, so keeping the first loses no classification. */
  lemma SameKeySameClass(a: string, b: string)
    requires Key(a) == Key(b)
    ensures IsNaturalPerson(a) == IsNaturalPerson(b)
  {
    ClassificationIgnoresCase(a);
    ClassificationIgnoresPadding(Lower(a));
    ClassificationIgnoresCase(b);
    ClassificationIgnoresPadding(Lower(b));
  }
}
