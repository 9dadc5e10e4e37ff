/**
 * The pool registry: the insertion-ordered list of pool handles that
 * back the heap (`pool_ll`).  Entries are appended at the tail and
 * removed by a front-to-back scan that unlinks the first match.
 */
module Registry {
  import opened Tlsf

  /** No handle is recorded twice. */
  predicate Distinct(s: seq<Ptr>)
  {
    forall i, j :: 0 <= i < j < |s| ==> s[i] != s[j]
  }

  /** Position of the first entry equal to `h`. */
  function IndexOf(s: seq<Ptr>, h: Ptr): (i: nat)
    requires h in s
    ensures i < |s| && s[i] == h && h !in s[..i]
  {
    if s[0] == h then 0
    else
      var j := IndexOf(s[1..], h);
      assert s[..j + 1] == [s[0]] + s[1..][..j];
      j + 1
  }

  /** The list with its first entry equal to `h` unlinked, if there is one. */
  function RemoveFirst(s: seq<Ptr>, h: Ptr): seq<Ptr>
  {
    if h in s then s[..IndexOf(s, h)] + s[IndexOf(s, h) + 1..] else s
  }

  /** Any index holding the first occurrence of `h` is IndexOf's answer. */
  lemma IndexOfUnique(s: seq<Ptr>, h: Ptr, i: nat)
    requires i < |s| && s[i] == h && h !in s[..i]
    ensures IndexOf(s, h) == i
  {
  }

  /**
   * Removing an absent handle changes nothing; removing a present one
   * drops exactly one copy of it, and putting it back at the position it
   * came from restores the list, so every other entry keeps its place in
   * the order.
   */
  lemma RemoveFirstSpec(s: seq<Ptr>, h: Ptr)
    ensures h !in s ==> RemoveFirst(s, h) == s
    ensures h in s ==>
      var r, i := RemoveFirst(s, h), IndexOf(s, h);
      && |r| == |s| - 1
      && multiset(r) == multiset(s) - multiset{h}
      && r[..i] + [h] + r[i..] == s
      && h !in r[..i]
  {
    if h in s {
      var i := IndexOf(s, h);
      var r := RemoveFirst(s, h);
      assert s == s[..i] + [s[i]] + s[i + 1..];
      assert r[..i] == s[..i];
      assert r[i..] == s[i + 1..];
      calc {
        multiset(s);
        multiset(s[..i]) + multiset{h} + multiset(s[i + 1..]);
        multiset(r) + multiset{h};
      }
    }
  }

  /**
   * Unlinking keeps the registry free of duplicates, and on such a
   * registry it removes the handle entirely and nothing else.
   */
  lemma RemoveFirstDistinct(s: seq<Ptr>, h: Ptr)
    requires Distinct(s)
    ensures Distinct(RemoveFirst(s, h))
    ensures forall x :: x in RemoveFirst(s, h) <==> x in s && x != h
  {
    if h in s {
      var i := IndexOf(s, h);
      var r := RemoveFirst(s, h);
      forall a, b | 0 <= a < b < |r|
        ensures r[a] != r[b]
      {
        Unlinked(s, i, a);
        Unlinked(s, i, b);
      }
      forall x
        ensures x in r <==> x in s && x != h
      {
        if x in r {
          var k :| 0 <= k < |r| && r[k] == x;
          Unlinked(s, i, k);
        }
        if x in s && x != h {
          var k :| 0 <= k < |s| && s[k] == x;
          var k' := if k < i then k else k - 1;
          Unlinked(s, i, k');
        }
      }
    }
  }

  /** Entry `k` of the list with entry `i` unlinked, read in the original. */
  lemma Unlinked(s: seq<Ptr>, i: nat, k: nat)
    requires i < |s| && k < |s| - 1
    ensures (s[..i] + s[i + 1..])[k] == s[if k < i then k else k + 1]
  {
  }

  /** Appending a handle not yet recorded keeps the registry duplicate-free. */
  lemma AppendDistinct(s: seq<Ptr>, h: Ptr)
    requires Distinct(s) && h !in s
    ensures Distinct(s + [h])
  {
  }
}
