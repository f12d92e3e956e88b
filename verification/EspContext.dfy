/**
 * The ESP context's sequence numbers: outbound numbering and the inbound
 * anti-replay window (sections 3.3.3 and 3.4.3 of RFC 4303). The window is a ring
 * of bits inside a byte buffer; it stands for the set of accepted numbers.
 */
module EspContext {
  import opened Bytes

  /**
   * An authenticated cipher with its IV generator, which it may lack. Generating
   * an IV, sealing and opening may fail.
   */
  datatype Aead = Aead(blockSize: nat, ivSize: nat, icvSize: nat,
                       generateIv: Option<nat -> Option<seq<byte>>>,
                       seal: (seq<byte>, seq<byte>, seq<byte>) -> Option<seq<byte>>,
                       open: (seq<byte>, seq<byte>, seq<byte>) -> Option<seq<byte>>)

  const WINDOW: nat := 128
  const UINT32_MAX: nat := U32_LIMIT - 1

  /** Unsigned 32-bit subtraction. */
  function WrapSub(a: nat, b: nat): nat {
    (a - b) % U32_LIMIT
  }

  /** The window divides the word size, so wrapped subtraction is modular subtraction. */
  lemma WrapSubModWindow(a: nat, b: nat)
    requires b < WINDOW
    ensures WrapSub(a, b) % WINDOW == (a + WINDOW - b) % WINDOW
  {
  }

  function Mask(k: nat): bv8
    requires k < 8
  {
    1 as bv8 << k
  }

  function GetBit(w: seq<bv8>, index: nat): bool
    requires index < 8 * |w|
  {
    w[index / 8] & Mask(index % 8) != 0
  }

  lemma MaskValues(k: nat)
    requires k < 8
    ensures Mask(k) == [1, 2, 4, 8, 16, 32, 64, 128][k]
  {
  }

  lemma SetBitOfByte(b: bv8, k: nat, j: nat)
    requires k < 8 && j < 8
    ensures ((b | Mask(k)) & Mask(j) != 0) == (j == k || b & Mask(j) != 0)
    ensures ((b & !Mask(k)) & Mask(j) != 0) == (j != k && b & Mask(j) != 0)
  {
    MaskValues(k);
    MaskValues(j);
  }

  lemma BitOfUpdate(was: seq<bv8>, w: seq<bv8>, index: nat, set_: bool, k: nat)
    requires |was| == |w| && index < 8 * |w| && k < 8 * |w|
    requires w == was[index / 8 := if set_ then was[index / 8] | Mask(index % 8) else was[index / 8] & !Mask(index % 8)]
    ensures GetBit(w, k) == if k == index then set_ else GetBit(was, k)
  {
    hide Mask;
    if k / 8 == index / 8 {
      SetBitOfByte(was[index / 8], index % 8, k % 8);
    }
  }

  /** The ring position d steps after `base`. */
  function Pos(base: nat, d: nat): (position: nat)
    ensures position < WINDOW
  {
    (base + d) % WINDOW
  }

  lemma PosDistinct(base: nat, d: nat, d': nat)
    requires 1 <= d <= WINDOW && 1 <= d' <= WINDOW
    ensures Pos(base, d) == Pos(base, d') <==> d == d'
  {
  }

  lemma PosNext(base: nat, d: nat)
    ensures (Pos(base, d) + 1) % WINDOW == Pos(base, d + 1)
  {
  }

  /** Number s may be accepted: ahead of all accepted numbers, or new and inside the window. */
  ghost predicate Acceptable(accepted: set<nat>, last: nat, s: nat) {
    s > last || (0 < s && last - s < WINDOW && s !in accepted)
  }

  class Context {
    const aead: Aead
    const inbound: bool
    const window: array<bv8>
    var lastSeqno: nat
    var seqnoIndex: nat
    /** Inbound: the numbers authenticated so far. */
    ghost var accepted: set<nat>

    ghost predicate Valid()
      reads this, window
    {
      && lastSeqno <= UINT32_MAX
      && window.Length == (if inbound then WINDOW / 8 + 1 else 0)
      && seqnoIndex < WINDOW
      && (forall s :: s in accepted ==> 0 < s <= lastSeqno)
      && (inbound && lastSeqno > 0 ==> lastSeqno in accepted)
      && (!inbound ==> accepted == {})
      && (inbound ==> Represents(window[..], seqnoIndex, lastSeqno, accepted))
    }

    constructor (aead: Aead, inbound: bool)
      ensures Valid() && fresh(window) && lastSeqno == 0 && accepted == {}
      ensures this.inbound == inbound && this.aead == aead
    {
      this.aead, this.inbound := aead, inbound;
      window := new bv8[if inbound then WINDOW / 8 + 1 else 0](i => 0);
      lastSeqno, seqnoIndex, accepted := 0, 0, {};
    }

    method SetWindowBit(index: nat, set_: bool)
      requires index < 8 * window.Length
      modifies window
      ensures forall k :: 0 <= k < 8 * window.Length ==>
                GetBit(window[..], k) == if k == index then set_ else old(GetBit(window[..], k))
    {
      hide Mask, GetBit;
      var i := index / 8;
      ghost var was := window[..];
      if set_ {
        window[i] := window[i] | Mask(index % 8);
      } else {
        window[i] := window[i] & !Mask(index % 8);
      }
      forall k | 0 <= k < 8 * window.Length
        ensures GetBit(window[..], k) == if k == index then set_ else GetBit(was, k)
      {
        BitOfUpdate(was, window[..], index, set_, k);
      }
    }

    method CheckWindow(seqno: nat) returns (unseen: bool)
      requires Valid() && inbound && 0 < seqno <= lastSeqno && lastSeqno - seqno < WINDOW
      ensures unseen == (seqno !in accepted)
    {
      hide GetBit;
      var offset := WrapSub(lastSeqno, seqno);
      WrapSubModWindow(seqnoIndex, offset);
      offset := WrapSub(seqnoIndex, offset) % WINDOW;
      unseen := !GetBit(window[..], offset);
    }

    method VerifySeqno(seqno: nat) returns (ok: bool)
      requires Valid() && seqno <= UINT32_MAX
      ensures ok == (inbound && Acceptable(accepted, lastSeqno, seqno))
    {
      if !inbound {
        return false;
      }
      if seqno > lastSeqno {
        return true;
      } else if seqno > 0 && WINDOW > lastSeqno - seqno {
        ok := CheckWindow(seqno);
      } else {
        return false;
      }
    }

    /** Callers must have verified the number first. */
    method SetAuthenticatedSeqno(seqno: nat)
      requires Valid() && seqno <= UINT32_MAX
      requires inbound ==> Acceptable(accepted, lastSeqno, seqno)
      modifies this`lastSeqno, this`seqnoIndex, this`accepted, window
      ensures Valid()
      ensures accepted == if inbound then old(accepted) + {seqno} else old(accepted)
      ensures lastSeqno == if inbound && seqno > old(lastSeqno) then seqno else old(lastSeqno)
    {
      if !inbound {
        return;
      }
      hide GetBit, Represents, WrapSub, Slot, Pos;
      ghost var was := window[..];
      if seqno > lastSeqno {
        var shift := seqno - lastSeqno;
        shift := if shift < WINDOW then shift else WINDOW;
        ghost var base := seqnoIndex;
        ShiftWindow(shift);
        ghost var shifted := window[..];
        SetWindowBit(seqnoIndex, true);
        ShiftRepresents(was, shifted, window[..], base, lastSeqno, seqno, shift, accepted);
        lastSeqno := seqno;
      } else {
        var i := WrapSub(lastSeqno, seqno);
        WrapSubSlot(seqnoIndex, lastSeqno, seqno);
        SetWindowBit(WrapSub(seqnoIndex, i) % WINDOW, true);
        MarkRepresents(was, window[..], seqnoIndex, lastSeqno, seqno, accepted);
      }
      accepted := accepted + {seqno};
    }

    /** Moves the newest position forward, clearing every slot it passes. */
    method ShiftWindow(shift: nat)
      requires window.Length == WINDOW / 8 + 1 && seqnoIndex < WINDOW && shift <= WINDOW
      modifies this`seqnoIndex, window
      ensures seqnoIndex == Pos(old(seqnoIndex), shift)
      ensures forall d :: 1 <= d <= shift ==> !GetBit(window[..], Pos(old(seqnoIndex), d))
      ensures forall d :: shift < d <= WINDOW ==>
                GetBit(window[..], Pos(old(seqnoIndex), d)) == old(GetBit(window[..], Pos(seqnoIndex, d)))
    {
      hide GetBit;
      ghost var base, was := seqnoIndex, window[..];
      for i := 0 to shift
        invariant seqnoIndex == Pos(base, i)
        invariant forall d :: 1 <= d <= i ==> !GetBit(window[..], Pos(base, d))
        invariant forall d :: i < d <= WINDOW ==> GetBit(window[..], Pos(base, d)) == GetBit(was, Pos(base, d))
      {
        seqnoIndex := (seqnoIndex + 1) % WINDOW;
        PosNext(base, i);
        ghost var before := window[..];
        SetWindowBit(seqnoIndex, false);
        forall d | 1 <= d <= WINDOW
          ensures GetBit(window[..], Pos(base, d)) == if d == i + 1 then false else GetBit(before, Pos(base, d))
        {
          PosDistinct(base, d, i + 1);
        }
      }
    }

    method NextSeqno() returns (ok: bool, seqno: nat)
      requires Valid()
      modifies this`lastSeqno
      ensures Valid()
      ensures ok == (!inbound && old(lastSeqno) < UINT32_MAX)
      ensures ok ==> seqno == lastSeqno == old(lastSeqno) + 1
      ensures !ok ==> lastSeqno == old(lastSeqno)
    {
      seqno := 0;
      if inbound || lastSeqno == UINT32_MAX {
        return false, 0;
      }
      lastSeqno := lastSeqno + 1;
      return true, lastSeqno;
    }
  }

  /** The ring slot of the number `back` steps behind the newest. */
  function Slot(index: nat, back: nat): (position: nat)
    requires back < WINDOW
    ensures position < WINDOW
  {
    (index + WINDOW - back) % WINDOW
  }

  lemma WrapSubSlot(index: nat, last: nat, seqno: nat)
    requires seqno <= last <= UINT32_MAX && last - seqno < WINDOW
    ensures WrapSub(index, WrapSub(last, seqno)) % WINDOW == Slot(index, last - seqno)
  {
    WrapSubModWindow(index, last - seqno);
  }

  /** The bits of the ring say exactly which numbers of the window were accepted. */
  ghost predicate Represents(w: seq<bv8>, index: nat, last: nat, accepted: set<nat>)
    requires |w| == WINDOW / 8 + 1
  {
    forall s :: 0 < s <= last && last - s < WINDOW ==> (GetBit(w, Slot(index, last - s)) <==> s in accepted)
  }

  /** Marking a number inside the window. */
  lemma MarkRepresents(was: seq<bv8>, w: seq<bv8>, index: nat, last: nat, seqno: nat, accepted: set<nat>)
    requires |was| == |w| == WINDOW / 8 + 1
    requires Represents(was, index, last, accepted)
    requires 0 < seqno <= last && last - seqno < WINDOW
    requires forall k :: 0 <= k < 8 * |w| ==> GetBit(w, k) == if k == Slot(index, last - seqno) then true else GetBit(was, k)
    ensures Represents(w, index, last, accepted + {seqno})
  {
    forall s | 0 < s <= last && last - s < WINDOW
      ensures GetBit(w, Slot(index, last - s)) <==> s in accepted + {seqno}
    {
      PosDistinct(index, WINDOW - (last - s), WINDOW - (last - seqno));
    }
  }

  /** Shifting to a new highest number clears exactly the slots of the numbers skipped. */
  lemma ShiftRepresents(was: seq<bv8>, shifted: seq<bv8>, w: seq<bv8>, base: nat, last: nat, seqno: nat, shift: nat,
                        accepted: set<nat>)
    requires |was| == |shifted| == |w| == WINDOW / 8 + 1 && base < WINDOW
    requires Represents(was, base, last, accepted) && (forall s :: s in accepted ==> s <= last)
    requires seqno > last && shift == Min(seqno - last, WINDOW)
    requires forall d :: 1 <= d <= shift ==> !GetBit(shifted, Pos(base, d))
    requires forall d :: shift < d <= WINDOW ==> GetBit(shifted, Pos(base, d)) == GetBit(was, Pos(base, d))
    requires forall k :: 0 <= k < 8 * |w| ==> GetBit(w, k) == if k == Pos(base, shift) then true else GetBit(shifted, k)
    ensures Represents(w, Pos(base, shift), seqno, accepted + {seqno})
  {
    forall s | 0 < s <= seqno && seqno - s < WINDOW
      ensures GetBit(w, Slot(Pos(base, shift), seqno - s)) <==> s in accepted + {seqno}
    {
      var back := seqno - s;
      var d := if shift > back then shift - back else shift + WINDOW - back;
      assert 1 <= d <= WINDOW;
      SlotIsPos(base, shift, back, d);
      PosDistinct(base, d, shift);
      if s <= last {
        assert d == WINDOW - (last - s);
        assert Pos(base, d) == Slot(base, last - s);
      }
    }
  }

  lemma SlotIsPos(base: nat, shift: nat, back: nat, d: nat)
    requires back < WINDOW && shift <= WINDOW
    requires d == if shift > back then shift - back else shift + WINDOW - back
    ensures Slot(Pos(base, shift), back) == Pos(base, d)
  {
    var turns, index := (base + shift) / WINDOW, (base + shift) % WINDOW;
    assert base + shift == WINDOW * turns + index;
    SameSlot(index + WINDOW - back, base + d, if shift > back then turns - 1 else turns);
  }

  lemma SameSlot(n: nat, m: nat, turns: int)
    requires m == n + WINDOW * turns
    ensures m % WINDOW == n % WINDOW
  {
    var q := n / WINDOW;
    assert m == WINDOW * (q + turns) + n % WINDOW;
  }
}
