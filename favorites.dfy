/** Pure operations on the home page's favorites list: a sequence of
    property ids, kept in the order in which they were favorited. */
module FavoriteList {

  /** No id occurs twice in the list. */
  predicate NoDuplicates(s: seq<int>) {
    forall i, j :: 0 <= i < j < |s| ==> s[i] != s[j]
  }

  /** The list with every occurrence of `id` dropped and the other ids kept
      in their order: what `filter((fid) => fid !== id)` computes. */
  function Without(s: seq<int>, id: int): (r: seq<int>)
    ensures forall x :: x in r <==> x in s && x != id
    ensures |r| <= |s|
    ensures id !in s ==> r == s
  {
    if s == [] then []
    else if s[0] == id then Without(s[1..], id)
    else [s[0]] + Without(s[1..], id)
  }

  /** Filtering distributes over concatenation: together with the one-element
      case below this pins down the order in which the kept ids appear. */
  lemma {:induction false} WithoutConcat(a: seq<int>, b: seq<int>, id: int)
    ensures Without(a + b, id) == Without(a, id) + Without(b, id)
  {
    if a == [] {
      assert a + b == b;
    } else {
      assert (a + b)[0] == a[0];
      assert (a + b)[1..] == a[1..] + b;
      WithoutConcat(a[1..], b, id);
    }
  }

  lemma WithoutSingleton(x: int, id: int)
    ensures Without([x], id) == if x == id then [] else [x]
  {
    assert [x][1..] == [];
  }

  /** A kept id at position `p` lands at position `|Without(s[..p], id)|`,
      the number of kept ids before it. */
  lemma WithoutAt(s: seq<int>, id: int, p: int)
    requires 0 <= p < |s| && s[p] != id
    ensures |Without(s[..p], id)| < |Without(s, id)|
    ensures Without(s, id)[|Without(s[..p], id)|] == s[p]
  {
    assert s == s[..p] + ([s[p]] + s[p + 1..]);
    WithoutConcat(s[..p], [s[p]] + s[p + 1..], id);
    WithoutConcat([s[p]], s[p + 1..], id);
    WithoutSingleton(s[p], id);
  }

  /** Those landing positions grow strictly with `p`: kept ids keep their
      relative order, copies of the same id included. */
  lemma WithoutPrefixGrows(s: seq<int>, id: int, p: int, q: int)
    requires 0 <= p < q <= |s| && s[p] != id
    ensures |Without(s[..p], id)| < |Without(s[..q], id)|
  {
    assert s[..q] == s[..p] + s[p..q];
    WithoutConcat(s[..p], s[p..q], id);
    assert s[p..q] == [s[p]] + s[p + 1..q];
    WithoutConcat([s[p]], s[p + 1..q], id);
    WithoutSingleton(s[p], id);
  }

  /** Every other id keeps its number of occurrences; `id` has none left. */
  lemma {:induction false} WithoutCounts(s: seq<int>, id: int)
    ensures forall x :: multiset(Without(s, id))[x] == if x == id then 0 else multiset(s)[x]
  {
    if s != [] {
      WithoutCounts(s[1..], id);
      assert s == [s[0]] + s[1..];
      assert multiset(s) == multiset([s[0]]) + multiset(s[1..]);
    }
  }

  /** Removing ids never creates a duplicate. */
  lemma {:induction false} WithoutKeepsNoDuplicates(s: seq<int>, id: int)
    requires NoDuplicates(s)
    ensures NoDuplicates(Without(s, id))
  {
    if s != [] {
      assert NoDuplicates(s[1..]) by {
        forall i, j | 0 <= i < j < |s[1..]| ensures s[1..][i] != s[1..][j] {
          assert s[1..][i] == s[i + 1] && s[1..][j] == s[j + 1];
        }
      }
      WithoutKeepsNoDuplicates(s[1..], id);
      if s[0] != id {
        assert s[0] !in s[1..] by {
          forall k | 0 <= k < |s[1..]| ensures s[1..][k] != s[0] {
            assert s[1..][k] == s[k + 1];
          }
        }
        var rest := Without(s[1..], id);
        assert s[0] !in rest;
        forall i, j | 0 <= i < j < |[s[0]] + rest| ensures ([s[0]] + rest)[i] != ([s[0]] + rest)[j] {
          if i > 0 {
            assert ([s[0]] + rest)[i] == rest[i - 1];
          }
          assert ([s[0]] + rest)[j] == rest[j - 1];
        }
      }
    }
  }

  /** Appending is safe exactly when the id is not yet in the list. */
  lemma AppendNoDuplicates(s: seq<int>, id: int)
    requires NoDuplicates(s)
    ensures NoDuplicates(s + [id]) <==> id !in s
  {
    if id in s {
      var k :| 0 <= k < |s| && s[k] == id;
      assert (s + [id])[k] == (s + [id])[|s|];
    }
  }
}
