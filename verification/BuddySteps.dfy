/** How allocating and freeing one block moves it between the free side and the live side. */
module BuddySteps {
  import opened Powers
  import opened BuddyBlocks
  import opened BuddyHeap
  import opened BuddyInvariant

  // ---------------------------------------------------------------- counting pages

  lemma {:induction false} CountConcat(a: seq<bool>, b: seq<bool>)
    ensures CountTrue(a + b) == CountTrue(a) + CountTrue(b)
  {
    if a == [] {
      assert a + b == b;
    } else {
      assert (a + b)[1..] == a[1..] + b;
      CountConcat(a[1..], b);
    }
  }

  lemma {:induction false} CountUniform(s: seq<bool>, v: bool)
    requires forall i :: 0 <= i < |s| ==> s[i] == v
    ensures CountTrue(s) == if v then |s| else 0
  {
    if s != [] {
      CountUniform(s[1..], v);
    }
  }

  lemma CountSetRange(bits: seq<bool>, b: nat, n: nat, v: bool)
    requires b + n <= |bits| && forall p :: b <= p < b + n ==> bits[p] == !v
    ensures CountTrue(SetRange(bits, b, n, v)) == if v then CountTrue(bits) + n else CountTrue(bits) - n
  {
    var r := SetRange(bits, b, n, v);
    CountUniform(bits[b..b + n], !v);
    CountUniform(r[b..b + n], v);
    CountRange(bits, b, n);
    CountRange(r, b, n);
    assert r[..b] == bits[..b];
    assert r[b + n..] == bits[b + n..];
  }

  lemma CountRange(s: seq<bool>, b: nat, n: nat)
    requires b + n <= |s|
    ensures CountTrue(s) == CountTrue(s[..b]) + CountTrue(s[b..b + n]) + CountTrue(s[b + n..])
  {
    assert s == s[..b + n] + s[b + n..];
    assert s[..b + n] == s[..b] + s[b..b + n];
    CountConcat(s[..b + n], s[b + n..]);
    CountConcat(s[..b], s[b..b + n]);
  }

  /** Below 4 GB the byte counter never wraps around. */
  lemma CounterExact(count: nat, pages: nat, total: nat)
    requires Bytes(total) < 0x1_0000_0000
    ensures count + pages <= total ==> Wrap(Bytes(count) + Bytes(pages)) == Bytes(count + pages)
    ensures pages <= count <= total ==> Wrap(Bytes(count) - Bytes(pages)) == Bytes(count - pages)
  {
  }

  lemma {:induction false} ListedPagesUpdate(free: FreeLists, o: nat, s: seq<nat>, m: nat)
    requires o < MAX_ORDER && m <= MAX_ORDER
    ensures ListedPages(free[o := s], m)
         == ListedPages(free, m) + if o < m then (|s| - |free[o]|) * Pow2(o) else 0
  {
    if m > 0 {
      ListedPagesUpdate(free, o, s, m - 1);
      if o == m - 1 {
        MulDistributes(|s|, |free[o]|, Pow2(o));
      }
    }
  }

  lemma PushPages(free: FreeLists, o: nat, b: nat)
    requires o < MAX_ORDER
    ensures ListedPages(Push(free, o, b), MAX_ORDER) == ListedPages(free, MAX_ORDER) + Pow2(o)
  {
    ListedPagesUpdate(free, o, [b] + free[o], MAX_ORDER);
  }

  lemma RemovePages(free: FreeLists, o: nat, b: nat)
    requires o < MAX_ORDER && b in free[o]
    ensures ListedPages(Remove(free, o, b), MAX_ORDER) == ListedPages(free, MAX_ORDER) - Pow2(o)
  {
    RemoveShortens(free[o], b);
    ListedPagesUpdate(free, o, RemoveFirst(free[o], b), MAX_ORDER);
  }

  // ---------------------------------------------------------------- from free to live and back

  lemma OccupyFree(free: FreeLists, o: nat, b: nat, bits: seq<bool>, usable: set<nat>)
    requires o < MAX_ORDER && FreeInv(Push(free, o, b), bits, usable)
    ensures b + Pow2(o) <= |bits| && FreeInv(free, SetRange(bits, b, Pow2(o), true), usable)
  {
    HeadIsAlone(free, o, b, bits, usable);
    var bits' := SetRange(bits, b, Pow2(o), true);
    PushListed(free, o, b);
    forall p: nat | p in usable
      ensures p < |bits'| && (bits'[p] || ListedCovers(free, p))
    {
      if !bits'[p] {
        var o', x :| Listed(Push(free, o, b), o', x) && Covers(x, o', p);
        assert Listed(free, o', x);
      }
    }
    forall o': nat, x: nat | Listed(free, o', x)
      ensures FreeBlockOk(x, o', bits', usable)
    {
      assert Apart(b, o, x, o');
      assert FreeBlockOk(x, o', bits, usable);
    }
  }

  lemma ClearApartFrom(live: map<nat, nat>, bits: seq<bool>, o: nat, b: nat, c: nat)
    requires c in live && BitsMatch(live, bits) && AllClear(bits, b, Pow2(o))
    ensures Apart(b, o, c, live[c])
  {
    if !Apart(b, o, c, live[c]) {
      var p := CommonPage(b, o, c, live[c]);
      assert LiveAt(live, c, p);
      assert LiveCovers(live, p);
    }
  }

  /** A block of clear pages meets no live block. */
  lemma ClearIsApart(live: map<nat, nat>, bits: seq<bool>, o: nat, b: nat)
    requires BitsMatch(live, bits) && AllClear(bits, b, Pow2(o))
    ensures forall c: nat :: c in live ==> Apart(b, o, c, live[c])
    ensures b !in live
  {
    forall c: nat | c in live
      ensures Apart(b, o, c, live[c])
    {
      ClearApartFrom(live, bits, o, b, c);
    }
  }

  lemma OccupyBits(live: map<nat, nat>, bits: seq<bool>, o: nat, b: nat, p: nat)
    requires BitsMatch(live, bits) && b !in live
    requires b + Pow2(o) <= |bits| && p < |bits|
    ensures SetRange(bits, b, Pow2(o), true)[p] <==> LiveCovers(live[b := o], p)
  {
    var live' := live[b := o];
    if Covers(b, o, p) {
      assert LiveAt(live', b, p);
    } else {
      if bits[p] {
        var c :| LiveAt(live, c, p);
        assert LiveAt(live', c, p);
      }
      if LiveCovers(live', p) {
        var c :| LiveAt(live', c, p);
        assert LiveAt(live, c, p);
      }
    }
  }

  lemma OccupyLive(live: map<nat, nat>, bits: seq<bool>, orders: seq<nat>, o: nat, b: nat)
    requires o < MAX_ORDER && LiveInv(live, bits, orders)
    requires Aligned(b, o) && AllClear(bits, b, Pow2(o))
    ensures b !in live
    ensures LiveInv(live[b := o], SetRange(bits, b, Pow2(o), true), orders[b := o])
  {
    ClearIsApart(live, bits, o, b);
    var live', bits' := live[b := o], SetRange(bits, b, Pow2(o), true);
    forall p: nat | p < |bits|
      ensures bits'[p] <==> LiveCovers(live', p)
    {
      OccupyBits(live, bits, o, b, p);
    }
  }

  lemma ReleaseLive(live: map<nat, nat>, bits: seq<bool>, orders: seq<nat>, b: nat)
    requires b in live && LiveInv(live, bits, orders)
    ensures b + Pow2(live[b]) <= |bits|
    ensures forall p: nat :: Covers(b, live[b], p) ==> bits[p]
    ensures LiveInv(live - {b}, SetRange(bits, b, Pow2(live[b]), false), orders[b := 0])
  {
    var o := live[b];
    var live', bits' := live - {b}, SetRange(bits, b, Pow2(o), false);
    forall p: nat | Covers(b, o, p)
      ensures bits[p]
    {
      assert LiveAt(live, b, p);
    }
    forall p: nat | p < |bits|
      ensures bits'[p] <==> LiveCovers(live', p)
    {
      if LiveCovers(live', p) {
        var c :| LiveAt(live', c, p);
        assert LiveAt(live, c, p) && Apart(b, o, c, live[c]);
      }
      if bits'[p] {
        var c :| LiveAt(live, c, p);
        assert LiveAt(live', c, p);
      }
    }
  }

  lemma ReleaseFree(free: FreeLists, o: nat, b: nat, bits: seq<bool>, usable: set<nat>)
    requires o < MAX_ORDER && FreeInv(free, bits, usable)
    requires Aligned(b, o) && b + Pow2(o) <= |bits|
    requires forall p: nat :: Covers(b, o, p) ==> bits[p] && p in usable
    ensures FreeInv(Push(free, o, b), SetRange(bits, b, Pow2(o), false), usable)
  {
    var bits' := SetRange(bits, b, Pow2(o), false);
    forall o': nat, x: nat | Listed(free, o', x)
      ensures Apart(b, o, x, o') && FreeBlockOk(x, o', bits', usable)
    {
      assert FreeBlockOk(x, o', bits, usable);
      if !Apart(b, o, x, o') {
        var p := CommonPage(b, o, x, o');
        assert false;
      }
    }
    forall p: nat | p in usable
      ensures p < |bits'| && (bits'[p] || ListedCovers(free, p) || Covers(b, o, p))
    {
      assert bits[p] || ListedCovers(free, p);
    }
    ListAlone(free, o, b, bits', usable);
  }
}
