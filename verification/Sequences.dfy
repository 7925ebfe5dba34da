/** How often an element occurs in a list. */
module Sequences {

  lemma RepeatCounts<T>(list: seq<T>, i: nat, j: nat)
    requires i < j < |list| && list[i] == list[j]
    ensures multiset(list)[list[i]] >= 2
  {
    assert list == list[..j] + [list[j]] + list[j + 1..];
    assert list[..j][i] == list[i] && list[i] in multiset(list[..j]);
  }

  lemma SingleCounts<T>(list: seq<T>, k: nat)
    requires k < |list| && forall i | 0 <= i < |list| && i != k :: list[i] != list[k]
    ensures multiset(list)[list[k]] == 1
  {
    assert list == list[..k] + [list[k]] + list[k + 1..];
    assert list[k] !in multiset(list[..k]) && list[k] !in multiset(list[k + 1..]);
  }
}
