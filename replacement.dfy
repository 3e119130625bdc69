// Page replacement: the ring `virtualPages` of the AvailablePages resident
// pages and the cursor `firstInPage`, the FIFO policy, the clock policy the
// SecondChance method is meant to be, and the SecondChance scan as written.
module Replacement {
  import opened Machine
  import opened Noff
  import opened Outcomes

  /** The ring has AvailablePages slots naming distinct pages below `n`. */
  ghost predicate RingOver(ring: seq<int>, n: int)
  {
    && |ring| == AvailablePages
    && (forall s :: 0 <= s < |ring| ==> 0 <= ring[s] < n)
    && (forall s, t :: 0 <= s < |ring| && 0 <= t < |ring| && s != t ==> ring[s] != ring[t])
  }

  /** The ring names exactly the resident pages, each once. */
  ghost predicate ResidentSetExact(pt: seq<TranslationEntry>, ring: seq<int>)
  {
    && RingOver(ring, |pt|)
    && (forall s :: 0 <= s < |ring| ==> pt[ring[s]].valid)
    && (forall p :: 0 <= p < |pt| && pt[p].valid ==> p in ring)
  }

  /** Residence after one swap: `oldPage` out, `newPage` in, the rest as before. */
  ghost predicate ResidenceMoved(pt: seq<TranslationEntry>, pt': seq<TranslationEntry>, oldPage: int, newPage: int)
  {
    && |pt'| == |pt| && 0 <= oldPage < |pt| && 0 <= newPage < |pt|
    && !pt'[oldPage].valid && pt'[newPage].valid
    && forall q :: 0 <= q < |pt| && q != oldPage && q != newPage ==> pt'[q].valid == pt[q].valid
  }

  /** Putting the faulting page into the ring slot of the page it evicts
      keeps the ring exact. Both FIFO and the clock do this. */
  lemma ReplaceKeepsResidentSet(pt: seq<TranslationEntry>, pt': seq<TranslationEntry>, ring: seq<int>,
                                slot: int, newPage: int)
    requires ResidentSetExact(pt, ring) && 0 <= slot < AvailablePages
    requires 0 <= newPage < |pt| && !pt[newPage].valid
    requires ResidenceMoved(pt, pt', ring[slot], newPage)
    ensures ResidentSetExact(pt', ring[slot := newPage])
  {
    var ring' := ring[slot := newPage];
    forall p | 0 <= p < |pt'| && pt'[p].valid
      ensures p in ring'
    {
      if p != newPage {
        assert p != ring[slot];
        var s :| 0 <= s < |ring| && ring[s] == p;
        assert ring'[s] == p;
      } else {
        assert ring'[slot] == p;
      }
    }
  }

  /** The ring stays exact over any change that leaves residence alone. */
  lemma ResidentSetSameValid(pt: seq<TranslationEntry>, pt': seq<TranslationEntry>, ring: seq<int>)
    requires ResidentSetExact(pt, ring) && |pt'| == |pt|
    requires forall q :: 0 <= q < |pt| ==> pt'[q].valid == pt[q].valid
    ensures ResidentSetExact(pt', ring)
  {
  }

  // ---------------------------------------------------------------------
  // FIFO

  /** The pages successive FIFO faults evict: the page in the slot under
      the cursor, whose slot then receives the faulting page, the cursor
      moving on by one. */
  function FifoVictims(ring: seq<int>, cursor: int, faults: seq<int>): (victims: seq<int>)
    requires |ring| == AvailablePages && 0 <= cursor < AvailablePages
    ensures |victims| == |faults|
    decreases |faults|
  {
    if |faults| == 0 then []
    else [ring[cursor]] + FifoVictims(ring[cursor := faults[0]], (cursor + 1) % AvailablePages, faults[1..])
  }

  /** First in, first out: the first AvailablePages faults evict the ring's
      pages in ring order from the cursor, and every later fault evicts the
      page brought in AvailablePages faults earlier. */
  lemma {:induction false} FifoEvictsOldestFirst(ring: seq<int>, cursor: int, faults: seq<int>)
    requires |ring| == AvailablePages && 0 <= cursor < AvailablePages
    ensures forall k :: 0 <= k < |faults| ==>
              FifoVictims(ring, cursor, faults)[k]
                == if k < AvailablePages then ring[(cursor + k) % AvailablePages] else faults[k - AvailablePages]
    decreases |faults|
  {
    if |faults| > 0 {
      var ring' := ring[cursor := faults[0]];
      var cursor' := (cursor + 1) % AvailablePages;
      FifoEvictsOldestFirst(ring', cursor', faults[1..]);
      var victims := FifoVictims(ring, cursor, faults);
      forall k | 0 <= k < |faults|
        ensures victims[k] == if k < AvailablePages then ring[(cursor + k) % AvailablePages] else faults[k - AvailablePages]
      {
        if k > 0 {
          assert victims[k] == FifoVictims(ring', cursor', faults[1..])[k - 1];
          if k - 1 < AvailablePages {
            assert (cursor' + (k - 1)) % AvailablePages == (cursor + k) % AvailablePages;
          }
        }
      }
    }
  }

  // ---------------------------------------------------------------------
  // The clock (second-chance) policy

  /** The use bits of the ring's pages, slot by slot. */
  function RingUses(pt: seq<TranslationEntry>, ring: seq<int>): (uses: seq<bool>)
    requires |ring| == AvailablePages && forall s :: 0 <= s < |ring| ==> 0 <= ring[s] < |pt|
    ensures |uses| == AvailablePages
    ensures forall s :: 0 <= s < AvailablePages ==> uses[s] == pt[ring[s]].use
  {
    seq(AvailablePages, s requires 0 <= s < AvailablePages => pt[ring[s]].use)
  }

  /** The ring slot `i` steps past `cursor`. */
  function Hand(cursor: int, i: int): (slot: int)
    ensures 0 <= slot < AvailablePages
  {
    (cursor + i) % AvailablePages
  }

  /** One more step of the hand is the next slot round the ring. */
  lemma HandNext(cursor: int, i: int)
    requires 0 <= cursor < AvailablePages && 0 <= i < AvailablePages
    ensures Hand(cursor, i + 1) == (Hand(cursor, i) + 1) % AvailablePages
  {
    if cursor + i + 1 < AvailablePages {
      assert Hand(cursor, i + 1) == cursor + i + 1 && Hand(cursor, i) == cursor + i;
    } else if cursor + i + 1 == AvailablePages {
      assert Hand(cursor, i + 1) == 0 && Hand(cursor, i) == AvailablePages - 1;
    } else {
      assert Hand(cursor, i + 1) == cursor + i + 1 - AvailablePages && Hand(cursor, i) == cursor + i - AvailablePages;
    }
  }

  /** The slot `i` steps past the cursor is `i` steps round from it. */
  lemma HandOffset(cursor: int, i: int)
    requires 0 <= cursor < AvailablePages && 0 <= i < AvailablePages
    ensures (Hand(cursor, i) - cursor) % AvailablePages == i
  {
  }

  /** How many slots the hand passes, starting `j` slots past the cursor,
      before it reaches a page whose use bit is clear; AvailablePages when
      every bit is set (the hand is then back at the cursor, whose bit it
      cleared on the way). */
  function ClockSkip(uses: seq<bool>, cursor: int, j: int): (k: int)
    requires |uses| == AvailablePages && 0 <= cursor < AvailablePages && 0 <= j <= AvailablePages
    ensures j <= k <= AvailablePages
    ensures forall i :: j <= i < k ==> uses[Hand(cursor, i)]
    ensures k < AvailablePages ==> !uses[Hand(cursor, k)]
    decreases AvailablePages - j
  {
    if j == AvailablePages then AvailablePages
    else if !uses[Hand(cursor, j)] then j
    else ClockSkip(uses, cursor, j + 1)
  }

  /** The ring slot the clock evicts from. */
  function ClockVictim(uses: seq<bool>, cursor: int): (slot: int)
    requires |uses| == AvailablePages && 0 <= cursor < AvailablePages
    ensures 0 <= slot < AvailablePages
  {
    Hand(cursor, ClockSkip(uses, cursor, 0))
  }

  /** A scan that passes set bits only and stops at a clear bit (or after a
      full turn) has passed exactly ClockSkip slots. */
  lemma {:induction false} ClockSkipIsFirstClear(uses: seq<bool>, cursor: int, j: int, k: int)
    requires |uses| == AvailablePages && 0 <= cursor < AvailablePages && 0 <= j <= k <= AvailablePages
    requires forall i :: j <= i < k ==> uses[Hand(cursor, i)]
    requires k < AvailablePages ==> !uses[Hand(cursor, k)]
    ensures ClockSkip(uses, cursor, j) == k
    decreases k - j
  {
    if j < k {
      ClockSkipIsFirstClear(uses, cursor, j + 1, k);
    }
  }

  /** Second chance: the clock evicts a page whose use bit is clear whenever
      there is one, scanning from the cursor; only when every page was used
      does it evict the page under the cursor, after clearing every bit. */
  lemma ClockGivesSecondChance(uses: seq<bool>, cursor: int)
    requires |uses| == AvailablePages && 0 <= cursor < AvailablePages
    ensures (exists s :: 0 <= s < AvailablePages && !uses[s]) ==> !uses[ClockVictim(uses, cursor)]
    ensures (forall s :: 0 <= s < AvailablePages ==> uses[s]) ==> ClockVictim(uses, cursor) == cursor
  {
    var k := ClockSkip(uses, cursor, 0);
    if k == AvailablePages {
      forall s | 0 <= s < AvailablePages
        ensures uses[s]
      {
        var i := (s - cursor) % AvailablePages;
        assert Hand(cursor, i) == s;
      }
    }
  }

  /** The page table after the hand has passed `k` slots: the use bit of
      each passed ring page is cleared. */
  function ClearPassed(pt: seq<TranslationEntry>, ring: seq<int>, cursor: int, k: int): (r: seq<TranslationEntry>)
    requires |ring| == AvailablePages && forall s :: 0 <= s < |ring| ==> 0 <= ring[s] < |pt|
    requires 0 <= cursor < AvailablePages && 0 <= k <= AvailablePages
    ensures |r| == |pt|
    ensures forall q :: 0 <= q < |pt| ==> r[q] == pt[q].(use := r[q].use)
    decreases k
  {
    if k == 0 then pt
    else
      var prev := ClearPassed(pt, ring, cursor, k - 1);
      var q := ring[Hand(cursor, k - 1)];
      prev[q := prev[q].(use := false)]
  }

  /** The ring slot the clock evicts from, for the use bits of the ring's
      pages in page table `pt`. */
  function ClockSlot(pt: seq<TranslationEntry>, ring: seq<int>, cursor: int): (slot: int)
    requires RingOver(ring, |pt|) && 0 <= cursor < AvailablePages
    ensures 0 <= slot < AvailablePages
  {
    ClockVictim(RingUses(pt, ring), cursor)
  }

  /** The page table once the hand has reached the victim. */
  function ClockScanned(pt: seq<TranslationEntry>, ring: seq<int>, cursor: int): (r: seq<TranslationEntry>)
    requires RingOver(ring, |pt|) && 0 <= cursor < AvailablePages
    ensures |r| == |pt|
    ensures forall q :: 0 <= q < |pt| ==> r[q] == pt[q].(use := r[q].use)
  {
    ClearPassed(pt, ring, cursor, ClockSkip(RingUses(pt, ring), cursor, 0))
  }

  /** Which use bits the passing hand has cleared. */
  lemma {:induction false} ClearPassedUses(pt: seq<TranslationEntry>, ring: seq<int>, cursor: int, k: int)
    requires RingOver(ring, |pt|) && 0 <= cursor < AvailablePages && 0 <= k <= AvailablePages
    ensures forall s :: 0 <= s < AvailablePages ==>
              ClearPassed(pt, ring, cursor, k)[ring[s]].use
                == (pt[ring[s]].use && (s - cursor) % AvailablePages >= k)
    ensures forall q :: 0 <= q < |pt| && q !in ring ==> ClearPassed(pt, ring, cursor, k)[q] == pt[q]
    decreases k
  {
    if k > 0 {
      ClearPassedUses(pt, ring, cursor, k - 1);
      var slot := Hand(cursor, k - 1);
      forall s | 0 <= s < AvailablePages
        ensures ClearPassed(pt, ring, cursor, k)[ring[s]].use
                == (pt[ring[s]].use && (s - cursor) % AvailablePages >= k)
      {
        if s == slot {
          assert (s - cursor) % AvailablePages == k - 1;
        } else {
          assert (s - cursor) % AvailablePages != k - 1;
          assert ring[s] != ring[slot];
        }
      }
    }
  }

  /** What the hand sees after passing `k` slots: the use bit of the page
      under it is the original one, unless a full turn has cleared it. */
  lemma HandSees(pt: seq<TranslationEntry>, ring: seq<int>, cursor: int, k: int)
    requires RingOver(ring, |pt|) && 0 <= cursor < AvailablePages && 0 <= k <= AvailablePages
    ensures ClearPassed(pt, ring, cursor, k)[ring[Hand(cursor, k)]].use
              == (k < AvailablePages && RingUses(pt, ring)[Hand(cursor, k)])
  {
    ClearPassedUses(pt, ring, cursor, k);
    if k < AvailablePages {
      HandOffset(cursor, k);
    }
  }

  // ---------------------------------------------------------------------
  // SecondChance as written

  /** One turn of the scan loop as written: its body compares a use bit
      with FALSE and discards the result, so the page table is unchanged,
      and the index moves on modulo AvailablePages. */
  function AsWrittenScanStep(pt: seq<TranslationEntry>, index: int): (seq<TranslationEntry>, int)
  {
    (pt, (index + 1) % AvailablePages)
  }

  /** The loop's state after `n` turns from index 0. */
  function AsWrittenScan(pt: seq<TranslationEntry>, n: nat): (seq<TranslationEntry>, int)
  {
    if n == 0 then (pt, 0)
    else
      var st := AsWrittenScan(pt, n - 1);
      AsWrittenScanStep(st.0, st.1)
  }

  /** After any number of turns the page table is unchanged and the index is
      below AvailablePages: the loop reads pageTable[0..3], page numbers,
      not ring slots. */
  lemma {:induction false} AsWrittenScanState(pt: seq<TranslationEntry>, n: nat)
    ensures AsWrittenScan(pt, n).0 == pt
    ensures AsWrittenScan(pt, n).1 == n % AvailablePages
  {
    if n > 0 {
      AsWrittenScanState(pt, n - 1);
    }
  }

  /** When pages 0..3 all have their use bit set the loop guard holds after
      every turn: the scan never exits. */
  lemma AsWrittenScanNeverExits(pt: seq<TranslationEntry>, n: nat)
    requires |pt| >= AvailablePages
    requires forall k :: 0 <= k < AvailablePages ==> pt[k].use
    ensures var st := AsWrittenScan(pt, n); 0 <= st.1 < |st.0| && st.0[st.1].use
  {
    AsWrittenScanState(pt, n);
  }

  /** The ring slot whose page SecondChance evicts as written, when the scan
      exits: the first page number below AvailablePages whose use bit is
      clear; None when it never exits. */
  function AsWrittenScanExit(pt: seq<TranslationEntry>): (r: Option<int>)
    requires |pt| >= AvailablePages
    ensures r.Some? ==> 0 <= r.value < AvailablePages && !pt[r.value].use
    ensures r.Some? ==> forall k :: 0 <= k < r.value ==> pt[k].use
    ensures r.None? <==> forall k :: 0 <= k < AvailablePages ==> pt[k].use
  {
    if !pt[0].use then Some(0)
    else if !pt[1].use then Some(1)
    else if !pt[2].use then Some(2)
    else if !pt[3].use then Some(3)
    else None
  }

  /** Even when the scan exits, SecondChance as written evicts the page in
      slot `index` but writes the faulting page into the slot under the FIFO
      cursor: here page 0 is evicted but stays in the ring, and page 2 stays
      resident but leaves it. */
  lemma AsWrittenSecondChanceBreaksRing()
    ensures var e := TranslationEntry(0, 0, true, false, true, false, Code, 0);
            var pt := [e.(use := false), e.(virtualPage := 1, physicalPage := 1),
                       e.(virtualPage := 2, physicalPage := 2), e.(virtualPage := 3, physicalPage := 3),
                       e.(virtualPage := 4, physicalPage := -1, valid := false)];
            var ring := [0, 1, 2, 3];
            var cursor := 2;
            var newPage := 4;
            var oldPage := ring[AsWrittenScanExit(pt).value];
            var pt' := pt[newPage := pt[newPage].(valid := true)][oldPage := pt[oldPage].(valid := false)];
            && ResidentSetExact(pt, ring)
            && oldPage == 0
            && !ResidentSetExact(pt', ring[cursor := newPage])
  {
    var e := TranslationEntry(0, 0, true, false, true, false, Code, 0);
    var pt := [e.(use := false), e.(virtualPage := 1, physicalPage := 1),
               e.(virtualPage := 2, physicalPage := 2), e.(virtualPage := 3, physicalPage := 3),
               e.(virtualPage := 4, physicalPage := -1, valid := false)];
    var ring := [0, 1, 2, 3];
    assert forall p :: 0 <= p < |pt| && pt[p].valid ==> p == ring[p];
    var pt' := pt[4 := pt[4].(valid := true)][0 := pt[0].(valid := false)];
    var ring' := ring[2 := 4];
    assert ring'[0] == 0 && !pt'[0].valid;
  }
}
