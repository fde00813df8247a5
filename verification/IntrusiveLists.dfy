/**
 The intrusive free lists in memory: `free_lists` holds the address of the first block of each
 order, and the first word of every listed block holds the address of the next one.  Address 0
 ends a list.
 */
module IntrusiveLists {
  import opened BuddyHeap
  import opened BuddyInvariant

  /** The address of page `b` of a heap that starts at page `hs`. */
  function Addr(hs: nat, b: nat): nat {
    Bytes(hs + b)
  }

  function AddrAt(hs: nat, s: seq<nat>, i: nat): nat {
    if i < |s| then Addr(hs, s[i]) else 0
  }

  ghost predicate Linked(hs: nat, heads: seq<nat>, link: seq<nat>, lists: FreeLists) {
    && |heads| == MAX_ORDER
    && (forall o :: 0 <= o < MAX_ORDER ==> heads[o] == AddrAt(hs, lists[o], 0))
    && (forall o, i :: 0 <= o < MAX_ORDER && 0 <= i < |lists[o]| ==>
          lists[o][i] < |link| && link[lists[o][i]] == AddrAt(hs, lists[o], i + 1))
  }

  /** No block is listed twice, in one list or in two. */
  ghost predicate Distinct(lists: FreeLists) {
    && NoDuplicates(lists)
    && forall o1: nat, o2: nat, b: nat :: Listed(lists, o1, b) && Listed(lists, o2, b) ==> o1 == o2
  }

  ghost predicate Unlisted(lists: FreeLists, b: nat) {
    forall o: nat :: !Listed(lists, o, b)
  }

  lemma PushLinked(hs: nat, heads: seq<nat>, link: seq<nat>, lists: FreeLists, o: nat, b: nat)
    requires Linked(hs, heads, link, lists) && Unlisted(lists, b)
    requires o < MAX_ORDER && b < |link|
    ensures Linked(hs, heads[o := Addr(hs, b)], link[b := heads[o]], Push(lists, o, b))
  {
    hide Addr;
    var lists' := Push(lists, o, b);
    var link' := link[b := heads[o]];
    forall q, i | 0 <= q < MAX_ORDER && 0 <= i < |lists'[q]|
      ensures lists'[q][i] < |link'| && link'[lists'[q][i]] == AddrAt(hs, lists'[q], i + 1)
    {
      if q == o && i == 0 {
      } else {
        var i' := if q == o then i - 1 else i;
        assert lists'[q][i] == lists[q][i'];
        assert Listed(lists, q, lists[q][i']);
      }
    }
  }

  lemma PopLinked(hs: nat, heads: seq<nat>, link: seq<nat>, lists: FreeLists, o: nat)
    requires Linked(hs, heads, link, lists) && o < MAX_ORDER && lists[o] != []
    ensures lists[o][0] < |link| && Linked(hs, heads[o := link[lists[o][0]]], link, Pop(lists, o))
  {
  }

  /** Unlinking element `k > 0` of list `o` by redirecting its predecessor. */
  lemma UnlinkLinked(hs: nat, heads: seq<nat>, link: seq<nat>, lists: FreeLists, o: nat, k: nat)
    requires Linked(hs, heads, link, lists) && Distinct(lists)
    requires o < MAX_ORDER && 0 < k < |lists[o]|
    ensures lists[o][k] < |link| && lists[o][k - 1] < |link|
    ensures Linked(hs, heads, link[lists[o][k - 1] := link[lists[o][k]]], lists[o := lists[o][..k] + lists[o][k + 1..]])
  {
    hide Addr;
    var s := lists[o];
    var prev := s[k - 1];
    var lists' := lists[o := s[..k] + s[k + 1..]];
    var link' := link[prev := link[s[k]]];
    assert Listed(lists, o, prev);
    forall q, i | 0 <= q < MAX_ORDER && 0 <= i < |lists'[q]|
      ensures lists'[q][i] < |link'| && link'[lists'[q][i]] == AddrAt(hs, lists'[q], i + 1)
    {
      var i' := if q == o && i >= k then i + 1 else i;
      assert lists'[q][i] == lists[q][i'];
      assert Listed(lists, q, lists[q][i']);
      if q == o {
        assert NoDup(s);
      }
    }
  }

  lemma {:induction false} RemoveAt(s: seq<nat>, k: nat)
    requires k < |s| && NoDup(s)
    ensures RemoveFirst(s, s[k]) == s[..k] + s[k + 1..]
  {
    if k > 0 {
      assert s[0] != s[k];
      RemoveAt(s[1..], k - 1);
      assert s[..k] + s[k + 1..] == [s[0]] + (s[1..][..k - 1] + s[1..][k..]);
    }
  }

  /** Writing to the first word of an unlisted page leaves the lists alone. */
  lemma WriteUnlisted(hs: nat, heads: seq<nat>, link: seq<nat>, lists: FreeLists, b: nat, v: nat)
    requires Linked(hs, heads, link, lists) && Unlisted(lists, b) && b < |link|
    ensures Linked(hs, heads, link[b := v], lists)
  {
    forall o, i | 0 <= o < MAX_ORDER && 0 <= i < |lists[o]|
      ensures link[b := v][lists[o][i]] == AddrAt(hs, lists[o], i + 1)
    {
      assert Listed(lists, o, lists[o][i]);
    }
  }

  lemma DistinctApart(lists: FreeLists)
    requires PairwiseApart(lists) && NoDuplicates(lists)
    ensures Distinct(lists)
  {
  }
}
