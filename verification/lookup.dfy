/**
 * The scan both fixed maps are searched with: walk the entries in insertion
 * order and return the value of the first key that is a substring of the
 * text (`for key, value in d.items(): if key in text: return value`).
 */
module Lookup {
  import opened Basics
  import opened Text

  /** Entry k is the first whose key occurs in text. */
  predicate FirstKeyAt<V>(entries: seq<(string, V)>, text: string, k: int)
  {
    0 <= k < |entries| && Contains(text, entries[k].0)
    && forall j :: 0 <= j < k ==> !Contains(text, entries[j].0)
  }

  /** The scan from entry i on. */
  function FirstContainedFrom<V>(entries: seq<(string, V)>, text: string, i: nat): (r: Option<V>)
    requires i <= |entries|
    requires forall j :: 0 <= j < i ==> !Contains(text, entries[j].0)
    ensures r.None? <==> forall k :: 0 <= k < |entries| ==> !Contains(text, entries[k].0)
    ensures r.Some? ==> exists k :: FirstKeyAt(entries, text, k) && r.value == entries[k].1
    decreases |entries| - i
  {
    if i == |entries| then None
    else if Contains(text, entries[i].0) then
      assert FirstKeyAt(entries, text, i);
      Some(entries[i].1)
    else FirstContainedFrom(entries, text, i + 1)
  }

  /** The value of the first entry whose key occurs in text, if any. */
  function FirstContained<V>(entries: seq<(string, V)>, text: string): (r: Option<V>)
    ensures r.None? <==> forall k :: 0 <= k < |entries| ==> !Contains(text, entries[k].0)
    ensures r.Some? ==> exists k :: FirstKeyAt(entries, text, k) && r.value == entries[k].1
  {
    FirstContainedFrom(entries, text, 0)
  }

  /** The first matching entry is unique, so naming it determines the scan's result. */
  lemma FirstContainedIs<V>(entries: seq<(string, V)>, text: string, k: int)
    requires FirstKeyAt(entries, text, k)
    ensures FirstContained(entries, text) == Some(entries[k].1)
  {
    var r := FirstContained(entries, text);
    var m :| FirstKeyAt(entries, text, m) && r.value == entries[m].1;
    assert m == k;
  }

  /**
   * A text spelled exactly as entry k's key finds entry k, once each earlier
   * key holds a character (listed in `missing`) that the text lacks.
   */
  lemma ListedKey<V>(entries: seq<(string, V)>, text: string, k: nat, missing: string)
    requires k < |entries| && text == entries[k].0 && |missing| == k
    requires forall j :: 0 <= j < k ==> missing[j] in entries[j].0 && missing[j] !in text
    ensures FirstContained(entries, text) == Some(entries[k].1)
  {
    assert text[0..|text|] == text;
    ContainsAt(text, text, 0);
    forall j | 0 <= j < k
      ensures !Contains(text, entries[j].0)
    {
      NotContainsMissingChar(text, entries[j].0, missing[j]);
    }
    FirstContainedIs(entries, text, k);
  }
}
