// Allocators over a finite index set: Nachos' `BitMap` (physical frames,
// swap-file slots) and the 128-entry `spaceIdMap` pool of address-space
// identifiers. The BitMap implementation (bitmap.cc) is not part of this
// model; `Find` and `Clear` are given the behaviour its interface promises:
// claim the lowest clear index or report -1, and release an index after a
// range check whose failure halts the kernel.
module BitMaps {

  /** The lowest index whose bit is clear, or -1 when every bit is set. */
  function FirstClear(bits: seq<bool>): (r: int)
    ensures -1 <= r < |bits|
    ensures r >= 0 ==> !bits[r] && forall j :: 0 <= j < r ==> bits[j]
    ensures r == -1 <==> forall j :: 0 <= j < |bits| ==> bits[j]
  {
    if |bits| == 0 then -1
    else if !bits[0] then 0
    else
      var k := FirstClear(bits[1..]);
      assert forall j :: 1 <= j < |bits| ==> bits[1..][j - 1] == bits[j];
      if k < 0 then -1 else k + 1
  }

  /** The number of set bits. */
  function CountSet(bits: seq<bool>): (n: nat)
    ensures n <= |bits|
  {
    if |bits| == 0 then 0 else (if bits[0] then 1 else 0) + CountSet(bits[1..])
  }

  lemma {:induction false} CountSetUpdate(bits: seq<bool>, i: int, b: bool)
    requires 0 <= i < |bits|
    ensures CountSet(bits[i := b])
         == CountSet(bits) - (if bits[i] then 1 else 0) + (if b then 1 else 0)
  {
    if i > 0 {
      CountSetUpdate(bits[1..], i - 1, b);
      assert bits[i := b][1..] == bits[1..][i - 1 := b];
    } else {
      assert bits[i := b][1..] == bits[1..];
    }
  }

  /** A bitmap with fewer set bits than slots has a clear one, so `Find`
      succeeds on it. */
  lemma {:induction false} NotFullHasClear(bits: seq<bool>)
    requires CountSet(bits) < |bits|
    ensures FirstClear(bits) >= 0
  {
    if |bits| > 0 && bits[0] {
      NotFullHasClear(bits[1..]);
    }
  }

  /** A bitmap all of whose bits are set holds exactly |bits| set bits. */
  lemma {:induction false} FullCount(bits: seq<bool>)
    requires FirstClear(bits) == -1
    ensures CountSet(bits) == |bits|
  {
    if |bits| > 0 {
      assert bits[0];
      assert forall j :: 0 <= j < |bits| - 1 ==> bits[1..][j] == bits[j + 1];
      FullCount(bits[1..]);
    }
  }

  /** A bitmap with no bit set counts zero. */
  lemma {:induction false} CountSetNone(bits: seq<bool>)
    requires forall j :: 0 <= j < |bits| ==> !bits[j]
    ensures CountSet(bits) == 0
  {
    if |bits| > 0 {
      assert forall j :: 0 <= j < |bits| - 1 ==> bits[1..][j] == bits[j + 1];
      CountSetNone(bits[1..]);
    }
  }

  /** The indices whose bit is set. */
  function SetBits(bits: seq<bool>): set<int>
  {
    set f | 0 <= f < |bits| && bits[f]
  }

  /** What one `Find` does to the set bits: the index it returns was clear
      and is now set, one more bit in all; -1 means the map was full. */
  lemma FrameClaimed(bits: seq<bool>, r: int)
    requires r == FirstClear(bits)
    ensures r >= 0 ==> r !in SetBits(bits) && SetBits(bits[r := true]) == SetBits(bits) + {r}
    ensures r >= 0 ==> CountSet(bits[r := true]) == CountSet(bits) + 1
    ensures r < 0 ==> CountSet(bits) == |bits|
  {
    if r >= 0 {
      CountSetUpdate(bits, r, true);
    } else {
      FullCount(bits);
    }
  }

  /** `k` successive `Find`s on a bitmap: the indices they return, in
      order, and the bitmap they leave. */
  function Claims(bits: seq<bool>, k: nat): (r: (seq<int>, seq<bool>))
    ensures |r.0| == k && |r.1| == |bits|
  {
    if k == 0 then ([], bits)
    else
      var prev := Claims(bits, k - 1);
      var f := FirstClear(prev.1);
      (prev.0 + [f], if f >= 0 then prev.1[f := true] else prev.1)
  }

  /** The indices of `frames` other than -1. */
  function Claimed(frames: seq<int>): set<int>
  {
    set i | 0 <= i < |frames| && frames[i] >= 0 :: frames[i]
  }

  lemma ClaimedSnoc(frames: seq<int>, f: int)
    ensures Claimed(frames + [f]) == Claimed(frames) + (if f >= 0 then {f} else {})
  {
    var s := frames + [f];
    forall x | x in Claimed(s) ensures x in Claimed(frames) + (if f >= 0 then {f} else {}) {
      var i :| 0 <= i < |s| && s[i] >= 0 && s[i] == x;
      if i < |frames| { assert frames[i] == x; }
    }
    forall x | x in Claimed(frames) ensures x in Claimed(s) {
      var i :| 0 <= i < |frames| && frames[i] >= 0 && frames[i] == x;
      assert s[i] == x;
    }
    if f >= 0 { assert s[|frames|] == f; }
  }

  /** Successive `Find`s hand out distinct indices that were clear, set
      exactly those, and all succeed while the map has room for them. */
  lemma ClaimsSpec(bits: seq<bool>, k: nat)
    ensures var r := Claims(bits, k);
            && (forall i :: 0 <= i < k && r.0[i] >= 0 ==> r.0[i] < |bits| && r.0[i] !in SetBits(bits))
            && (forall i, j :: 0 <= i < j < k && r.0[i] >= 0 ==> r.0[i] != r.0[j])
            && SetBits(r.1) == SetBits(bits) + Claimed(r.0)
            && CountSet(r.1) <= CountSet(bits) + k
            && (CountSet(bits) + k <= |bits| ==> forall i :: 0 <= i < k ==> r.0[i] >= 0)
  {
    ClaimsBits(bits, k);
    ClaimsFresh(bits, k);
  }

  /** What `k` successive `Find`s leave set, and that they all succeed
      while the map has room. */
  lemma ClaimsBits(bits: seq<bool>, k: nat)
    ensures var r := Claims(bits, k);
            && SetBits(r.1) == SetBits(bits) + Claimed(r.0)
            && CountSet(r.1) <= CountSet(bits) + k
            && (CountSet(bits) + k <= |bits| ==> forall i :: 0 <= i < k ==> r.0[i] >= 0)
  {
    ClaimsSetBits(bits, k);
    ClaimsCount(bits, k);
  }

  lemma {:induction false} ClaimsSetBits(bits: seq<bool>, k: nat)
    ensures SetBits(Claims(bits, k).1) == SetBits(bits) + Claimed(Claims(bits, k).0)
  {
    if k > 0 {
      ClaimsSetBits(bits, k - 1);
      var prev := Claims(bits, k - 1);
      var f := FirstClear(prev.1);
      FrameClaimed(prev.1, f);
      var r := Claims(bits, k);
      assert r.0 == prev.0 + [f];
      ClaimedSnoc(prev.0, f);
      if f >= 0 {
        assert r.1 == prev.1[f := true];
      } else {
        assert r.1 == prev.1;
      }
    }
  }

  lemma {:induction false} ClaimsCount(bits: seq<bool>, k: nat)
    ensures CountSet(Claims(bits, k).1) <= CountSet(bits) + k
    ensures CountSet(bits) + k <= |bits| ==> forall i :: 0 <= i < k ==> Claims(bits, k).0[i] >= 0
  {
    if k > 0 {
      ClaimsCount(bits, k - 1);
      var prev := Claims(bits, k - 1);
      var f := FirstClear(prev.1);
      FrameClaimed(prev.1, f);
      var r := Claims(bits, k);
      assert r.0 == prev.0 + [f];
      if CountSet(bits) + k <= |bits| {
        assert f >= 0;
        forall i | 0 <= i < k ensures r.0[i] >= 0 {
          if i < k - 1 { assert r.0[i] == prev.0[i]; }
        }
      }
    }
  }

  /** `k` successive `Find`s hand out distinct indices that were clear. */
  lemma {:induction false} ClaimsFresh(bits: seq<bool>, k: nat)
    ensures var r := Claims(bits, k);
            && (forall i :: 0 <= i < k && r.0[i] >= 0 ==> r.0[i] < |bits| && r.0[i] !in SetBits(bits))
            && (forall i, j :: 0 <= i < j < k && r.0[i] >= 0 ==> r.0[i] != r.0[j])
  {
    if k > 0 {
      ClaimsFresh(bits, k - 1);
      ClaimsBits(bits, k - 1);
      var prev := Claims(bits, k - 1);
      var f := FirstClear(prev.1);
      FrameClaimed(prev.1, f);
      var r := Claims(bits, k);
      assert r.0 == prev.0 + [f];
      forall i, j | 0 <= i < j < k && r.0[i] >= 0
        ensures r.0[i] != r.0[j]
      {
        if j == k - 1 {
          assert r.0[i] == prev.0[i];
          assert r.0[i] in Claimed(prev.0);
        }
      }
    }
  }

  class BitMap {
    const numBits: nat
    const bits: array<bool>

    ghost predicate Valid()
    {
      bits.Length == numBits
    }

    /** A bitmap of `nitems` bits, all clear. */
    constructor (nitems: nat)
      ensures Valid() && fresh(bits) && numBits == nitems
      ensures bits[..] == seq(nitems, _ => false)
    {
      numBits := nitems;
      bits := new bool[nitems](_ => false);
    }

    /** Claims the lowest clear bit and returns its index, or -1 (changing
        nothing) when every bit is set. */
    method Find() returns (r: int)
      requires Valid()
      modifies bits
      ensures r == FirstClear(old(bits[..]))
      ensures bits[..] == if r >= 0 then old(bits[..])[r := true] else old(bits[..])
    {
      var i := 0;
      while i < numBits
        invariant 0 <= i <= numBits
        invariant forall j :: 0 <= j < i ==> bits[j]
        invariant bits[..] == old(bits[..])
      {
        if !bits[i] {
          bits[i] := true;
          return i;
        }
        i := i + 1;
      }
      return -1;
    }

    /** Releases bit `which`; an index outside the map fails the range
        assertion (`ok` is false) and nothing changes. */
    method Clear(which: int) returns (ok: bool)
      requires Valid()
      modifies bits
      ensures ok <==> 0 <= which < numBits
      ensures bits[..] == if ok then old(bits[..])[which := false] else old(bits[..])
    {
      ok := 0 <= which < numBits;
      if ok {
        bits[which] := false;
      }
    }
  }

  /** Capacity of the process-wide pool of address-space identifiers. */
  const SpaceIdCount: int := 128

  /** The identifier search at the start of the AddrSpace constructor: the
      lowest free slot of `spaceIdMap` is marked taken and returned; -1 means
      the pool is exhausted (the constructor then halts). */
  method ClaimSpaceId(spaceIdMap: array<bool>) returns (id: int)
    requires spaceIdMap.Length == SpaceIdCount
    modifies spaceIdMap
    ensures id == FirstClear(old(spaceIdMap[..]))
    ensures spaceIdMap[..] == if id >= 0 then old(spaceIdMap[..])[id := true] else old(spaceIdMap[..])
  {
    var i := 0;
    while i < SpaceIdCount
      invariant 0 <= i <= SpaceIdCount
      invariant forall j :: 0 <= j < i ==> spaceIdMap[j]
      invariant spaceIdMap[..] == old(spaceIdMap[..])
    {
      if !spaceIdMap[i] {
        spaceIdMap[i] := true;
        return i;
      }
      i := i + 1;
    }
    return -1;
  }

  /** Releasing an identifier and claiming again hands the same identifier
      back when it was the lowest free one; in particular an identifier freed
      into an otherwise full pool is reused. */
  lemma {:induction false} ReleasedIdReused(pool: seq<bool>, id: int)
    requires 0 <= id < |pool|
    requires forall j :: 0 <= j < id ==> pool[j]
    ensures FirstClear(pool[id := false]) == id
  {
    var p := pool[id := false];
    assert !p[id];
    assert forall j :: 0 <= j < id ==> p[j];
  }

  /** An identifier that is taken is never handed out again. */
  lemma TakenIdNotClaimed(pool: seq<bool>, id: int)
    requires 0 <= id < |pool| && pool[id]
    ensures FirstClear(pool) != id
  {
  }
}
