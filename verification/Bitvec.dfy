/** The Bitvec structure itself: one record per node, its table and its array of
    parts changed in place. */
module BitvecObject {
  import opened BitvecHash
  import Spec = BitvecSpec
  import opened BitvecSpec
  import opened Seqs

  class Bitvec {
    const L: Layout
    const iSize: nat
    var nSet: nat
    var iDivisor: nat
    const aBitmap: array<bv8>
    const aHash: array<nat>
    const apSub: array<Bitvec?>
    ghost var Repr: set<object>

    ghost predicate Valid()
      reads this, Repr
      ensures Valid() ==> this in Repr
      decreases Repr
    {
      && this in Repr && aBitmap in Repr && aHash in Repr && apSub in Repr
      && L.Valid() && aBitmap.Length == L.NElem() && aHash.Length == L.NInt() && apSub.Length == L.NPtr()
      && (iDivisor > 0 ==>
            && (forall k :: 0 <= k < apSub.Length ==> PartOk(k))
            && (forall k :: 0 <= k < apSub.Length && apSub[k] != null ==> apSub[k] in Repr)
            && (forall j, k :: 0 <= j < k < apSub.Length ==> Apart(j, k)))
    }

    /** The part at `k` is a Bitvec of its own. */
    ghost predicate PartOk(k: nat)
      requires k < apSub.Length && this in Repr && apSub in Repr
      reads this, Repr
      decreases Repr, 0
    {
      var s := apSub[k];
      s != null ==>
        && s in Repr && s.Repr <= Repr && s.Repr !! {this, aBitmap, aHash, apSub}
        && s.L == L && s.iSize == iDivisor && s.Valid()
    }

    ghost predicate Apart(j: nat, k: nat)
      requires j < apSub.Length && k < apSub.Length && this in Repr && apSub in Repr
      requires apSub[j] in Repr + {null} && apSub[k] in Repr + {null}
      reads this, Repr
    {
      apSub[j] != null && apSub[k] != null ==> apSub[j].Repr !! apSub[k].Repr
    }

    /** The value of the structure. */
    ghost function View(): Bv
      requires Valid()
      reads this, Repr
      decreases Repr
    {
      if iDivisor > 0 then
        Divided(iSize, iDivisor,
          seq(apSub.Length, k requires 0 <= k < apSub.Length && Valid() && iDivisor > 0 reads this, Repr => PartView(k)))
      else if iSize <= L.NBit() then Bitmap(iSize, aBitmap[..])
      else Hashed(iSize, nSet, aHash[..])
    }

    ghost function PartView(k: nat): Option<Bv>
      requires Valid() && iDivisor > 0 && k < apSub.Length
      reads this, Repr
      decreases Repr, 0
    {
      assert PartOk(k);
      if apSub[k] == null then None else Some(apSub[k].View())
    }

    /** sqlite3BitvecCreate() */
    constructor (L: Layout, iSize: nat)
      requires L.Valid()
      ensures Valid() && fresh(Repr) && this.L == L && this.iSize == iSize
      ensures View() == Spec.Create(L, iSize)
    {
      this.L, this.iSize := L, iSize;
      nSet, iDivisor := 0, 0;
      aBitmap := new bv8[L.NElem()](i => 0);
      aHash := new nat[L.NInt()](i => 0);
      apSub := new Bitvec?[L.NPtr()](i => null);
      new;
      Repr := {this, aBitmap, aHash, apSub};
      assert aBitmap[..] == seq(L.NElem(), i => 0);
      assert aHash[..] == Empty(L.NInt());
    }

    /** The part that bit `i0` belongs to, seen from the node and from its value. */
    lemma PartAt(i0: nat)
      requires Valid() && WF(L, View()) && iDivisor > 0 && i0 < iSize
      ensures Bin(i0, iDivisor) < apSub.Length && iDivisor < iSize
      ensures View().Divided? && View().iDivisor == iDivisor
      ensures View().apSub[Bin(i0, iDivisor)] == PartView(Bin(i0, iDivisor))
      ensures var s := apSub[Bin(i0, iDivisor)];
              s != null ==> s in Repr && s.Repr < Repr && s.Valid() && s.L == L && s.iSize == iDivisor && WF(L, s.View())
    {
      hide TableOk, NonZero;
      BinBounds(L, iSize, i0);
      assert PartOk(Bin(i0, iDivisor));
      assert View().apSub[Bin(i0, iDivisor)] == PartView(Bin(i0, iDivisor));
    }

    lemma PartTest(i0: nat)
      requires Valid() && WF(L, View()) && iDivisor > 0 && i0 < iSize && Bin(i0, iDivisor) < apSub.Length
      requires apSub[Bin(i0, iDivisor)] in Repr + {null}
      requires var s := apSub[Bin(i0, iDivisor)];
               s != null ==> s.Repr < Repr && s.Valid() && s.iSize == iDivisor && WF(L, s.View())
      ensures var s := apSub[Bin(i0, iDivisor)];
              Test(L, View(), i0) == (s != null && Test(L, s.View(), Off(i0, iDivisor)))
    {
      hide TableOk, NonZero, WF;
      PartAt(i0);
    }

    /** sqlite3BitvecTestNotNull() */
    method TestNotNull(i: nat) returns (bit: bool)
      requires Valid() && WF(L, View()) && i < U32 && iSize < U32
      ensures bit == TestBit(L, View(), i)
    {
      hide WF, Test, Bin, Off;
      var i0: nat := (i - 1) % U32;
      if i0 >= iSize { return false; }
      ghost var all := Test(L, View(), i0);
      var p: Bitvec := this;
      while p.iDivisor != 0
        invariant p.Valid() && p.L == L && WF(L, p.View()) && i0 < p.iSize
        invariant all == Test(L, p.View(), i0)
        decreases p.Repr
      {
        p.PartAt(i0);
        p.PartTest(i0);
        var bin := Bin(i0, p.iDivisor);
        i0 := Off(i0, p.iDivisor);
        var sub := p.apSub[bin];
        if sub == null { return false; }
        p := sub;
      }
      bit := p.TestLeaf(i0);
    }

    /** The end of the test, at a node that is not divided. */
    method TestLeaf(i0: nat) returns (bit: bool)
      requires Valid() && WF(L, View()) && iDivisor == 0 && i0 < iSize
      ensures bit == Test(L, View(), i0)
    {
      hide TableOk, NonZero, Probe;
      if iSize <= L.NBit() {
        BitmapIndex(L, i0, iSize);
        bit := BitOn(aBitmap[i0 / 8], i0 % 8);
      } else {
        bit := ProbeHash(i0 + 1);
      }
    }

    /** The probe loop of the test. */
    method ProbeHash(v: nat) returns (found: bool)
      requires Valid() && WF(L, View()) && View().Hashed? && v > 0
      ensures found == (aHash[..][Probe(aHash[..], v)] == v)
    {
      ghost var a := aHash[..];
      assert TableOk(a) && NonZero(a) < |a|;
      NonZeroBound(a);
      found := ProbeTable(v);
    }

    method ProbeTable(v: nat) returns (found: bool)
      requires aHash.Length == L.NInt() && L.NInt() > 0 && HasFree(aHash[..]) && v > 0
      ensures found == (aHash[..][Probe(aHash[..], v)] == v)
    {
      ghost var a := aHash[..];
      ghost var n, home := |a|, Home(|a|, v);
      WalkStops(a, home, v);
      var h := (v - 1) % L.NInt();
      ghost var d := 0;
      while aHash[h] != 0
        invariant 0 <= d < n && h == Slot(n, home, d)
        invariant Walk(a, home, 0, v) == Walk(a, home, d, v)
        decreases n - d
      {
        assert a[h] == aHash[h];
        if aHash[h] == v { return true; }
        NextSlot(n, home, d);
        h := (h + 1) % L.NInt();
        d := d + 1;
      }
      assert a[h] == aHash[h];
      return false;
    }

    // ----- setting -----

    /** Writing the table of a node in hash form. */
    method StoreAt(h: nat, v: nat)
      requires Valid() && iDivisor == 0 && iSize > L.NBit() && h < aHash.Length
      modifies this`nSet, aHash
      ensures Valid() && Repr == old(Repr) && iDivisor == 0
      ensures old(View()).Hashed?
      ensures View() == Hashed(iSize, old(View()).nSet + 1, old(View()).aHash[h := v])
    {
      ghost var a := aHash[..];
      nSet := nSet + 1;
      aHash[h] := v;
      assert aHash[..] == a[h := v];
    }

    /** The probe loop of a set: where the value is, or the first free slot. */
    method FindSlot(v: nat) returns (h: nat)
      requires aHash.Length == L.NInt() && L.NInt() > 0 && HasFree(aHash[..]) && v > 0
      ensures h == Probe(aHash[..], v)
    {
      ghost var a := aHash[..];
      ghost var n, home := |a|, Home(|a|, v);
      WalkStops(a, home, v);
      h := (v - 1) % L.NInt();
      ghost var d := 0;
      while aHash[h] != 0 && aHash[h] != v
        invariant 0 <= d < n && h == Slot(n, home, d)
        invariant Walk(a, home, 0, v) == Walk(a, home, d, v)
        decreases n - d
      {
        assert a[h] == aHash[h];
        NextSlot(n, home, d);
        h := h + 1;
        if h >= L.NInt() {
          h := 0;
        }
        d := d + 1;
      }
      assert a[h] == aHash[h];
    }

    /** sqlite3BitvecSet() */
    method Set(i: nat)
      requires Valid() && WF(L, View()) && 1 <= i <= iSize
      modifies Repr
      ensures Valid() && fresh(Repr - old(Repr))
      ensures View() == Spec.Set(L, old(View()), i - 1)
      decreases iSize, if iDivisor == 0 then 6 else 3
    {
      hide WF, Spec.Set;
      if iDivisor != 0 {
        SetInPart(i - 1);
      } else if iSize <= L.NBit() {
        SetBitmapBit(i - 1);
      } else {
        SetHash(i - 1);
      }
    }

    method SetBitmapBit(i0: nat)
      requires Valid() && WF(L, View()) && i0 < iSize && iDivisor == 0 && iSize <= L.NBit()
      modifies aBitmap
      ensures Valid() && View() == Spec.Set(L, old(View()), i0)
    {
      hide WithBit;
      BitmapIndex(L, i0, iSize);
      ghost var b := aBitmap[..];
      aBitmap[i0 / 8] := WithBit(aBitmap[i0 / 8], i0 % 8);
      assert aBitmap[..] == b[i0 / 8 := WithBit(b[i0 / 8], i0 % 8)];
    }

    /** Hang a new part, built from fresh memory, below this node. */
    method PutPart(bin: nat, sub: Bitvec)
      requires Valid() && iDivisor > 0 && bin < apSub.Length && apSub[bin] == null
      requires sub.Valid() && sub.Repr !! Repr && sub.L == L && sub.iSize == iDivisor
      modifies this`Repr, apSub
      ensures Valid() && Repr == old(Repr) + old(sub.Repr) && iDivisor == old(iDivisor) && apSub[bin] == sub
      ensures sub.Repr == old(sub.Repr) && sub.View() == old(sub.View())
      ensures old(View()).Divided?
      ensures View() == Divided(iSize, iDivisor, old(View()).apSub[bin := Some(sub.View())])
    {
      ghost var v := View();
      apSub[bin] := sub;
      Repr := Repr + sub.Repr;
      forall k | 0 <= k < apSub.Length ensures PartOk(k) {
        if k != bin {
          assert old(PartOk(k));
        }
      }
      forall j, k | 0 <= j < k < apSub.Length ensures Apart(j, k) {
        assert old(PartOk(j)) && old(PartOk(k)) && old(Apart(j, k));
      }
      forall k | 0 <= k < apSub.Length ensures View().apSub[k] == if k == bin then Some(sub.View()) else v.apSub[k] {
        assert old(PartOk(k)) && PartOk(k);
        assert View().apSub[k] == PartView(k);
        if k != bin && apSub[k] != null {
          assert apSub[k].View() == old(apSub[k].View());
        }
        assert v.apSub[k] == old(PartView(k));
      }
      assert View().apSub == v.apSub[bin := Some(sub.View())];
    }

    /** After a change confined to the part at `bin`, the node is in order again
        and differs in that part alone. */
    twostate lemma PartChanged(bin: nat)
      requires old(Valid()) && old(iDivisor) > 0 && bin < apSub.Length && iDivisor == old(iDivisor)
      requires apSub[bin] != null && apSub[bin] == old(apSub[bin]) && old(allocated(apSub[bin]))
      requires apSub[bin].Valid() && fresh(apSub[bin].Repr - old(apSub[bin].Repr))
      requires Repr == old(Repr) + apSub[bin].Repr
      requires forall o :: o in old(Repr) && o != this && o !in old(apSub[bin].Repr) ==> unchanged(o)
      ensures Valid() && old(View()).Divided?
      ensures View() == Divided(iSize, iDivisor, old(View()).apSub[bin := Some(apSub[bin].View())])
    {
      var sub := apSub[bin];
      PartsKept(bin);
      forall j, k | 0 <= j < k < apSub.Length ensures Apart(j, k) {
        assert old(Apart(j, k));
      }
      forall k | 0 <= k < apSub.Length
        ensures View().apSub[k] == if k == bin then Some(sub.View()) else old(View()).apSub[k]
      {
        assert PartOk(k) && old(PartOk(k));
        assert View().apSub[k] == PartView(k) && old(View()).apSub[k] == old(PartView(k));
      }
      assert View().apSub == old(View()).apSub[bin := Some(sub.View())];
    }

    twostate lemma PartsKept(bin: nat)
      requires old(Valid()) && old(iDivisor) > 0 && bin < apSub.Length && iDivisor == old(iDivisor)
      requires apSub[bin] != null && apSub[bin] == old(apSub[bin]) && old(allocated(apSub[bin]))
      requires apSub[bin].Valid() && fresh(apSub[bin].Repr - old(apSub[bin].Repr))
      requires Repr == old(Repr) + apSub[bin].Repr
      requires forall o :: o in old(Repr) && o != this && o !in old(apSub[bin].Repr) ==> unchanged(o)
      ensures this in Repr && apSub in Repr
      ensures forall k :: 0 <= k < apSub.Length ==> apSub[k] == old(apSub[k]) && PartOk(k)
      ensures forall k :: 0 <= k < apSub.Length && k != bin && apSub[k] != null ==>
                apSub[k].Repr == old(apSub[k].Repr) && apSub[k].Repr !! apSub[bin].Repr
                && apSub[k].Valid() && old(apSub[k].Valid()) && apSub[k].View() == old(apSub[k].View())
    {
      assert old(PartOk(bin));
      assert forall x :: x in apSub[bin].Repr ==> x in old(apSub[bin].Repr) || fresh(x);
      forall k | 0 <= k < apSub.Length
        ensures apSub[k] == old(apSub[k]) && PartOk(k)
        ensures k != bin && apSub[k] != null ==>
                apSub[k].Repr == old(apSub[k].Repr) && apSub[k].Repr !! apSub[bin].Repr
                && apSub[k].Valid() && old(apSub[k].Valid()) && apSub[k].View() == old(apSub[k].View())
      {
        assert old(PartOk(bin)) && old(PartOk(k));
        if k < bin {
          assert old(Apart(k, bin));
        } else if bin < k {
          assert old(Apart(bin, k));
        }
      }
    }

    /** Set a bit in a part that exists. */
    method SetPartBit(bin: nat, off: nat)
      requires Valid() && iDivisor > 0 && bin < apSub.Length && apSub[bin] != null
      requires apSub[bin] in Repr && apSub[bin].Valid() && apSub[bin].L == L && apSub[bin].iSize == iDivisor < iSize
      requires WF(L, apSub[bin].View()) && off < iDivisor
      modifies Repr
      ensures Valid() && fresh(Repr - old(Repr)) && iDivisor == old(iDivisor)
      ensures old(View()).Divided?
      ensures View() == Divided(iSize, iDivisor, old(View()).apSub[bin := Some(Spec.Set(L, old(apSub[bin].View()), off))])
      decreases iSize, 1
    {
      hide WF, Spec.Set;
      var sub := apSub[bin];
      assert PartOk(bin);
      sub.Set(off + 1);
      Repr := Repr + sub.Repr;
      PartChanged(bin);
    }

    /** The descent of a set: into the part for the bit, created if missing. */
    method SetInPart(i0: nat)
      requires Valid() && WF(L, View()) && i0 < iSize && iDivisor != 0
      modifies Repr
      ensures Valid() && fresh(Repr - old(Repr)) && iDivisor == old(iDivisor)
      ensures View() == Spec.Set(L, old(View()), i0)
      decreases iSize, 2
    {
      hide TableOk, NonZero, Bin, Off, Spec.Create;
      PartAt(i0);
      CreateOk(L, iDivisor);
      var bin := Bin(i0, iDivisor);
      ghost var v := View();
      if apSub[bin] == null {
        var sub := new Bitvec(L, iDivisor);
        PutPart(bin, sub);
        assert View().apSub[bin] == Some(Spec.Create(L, iDivisor));
      }
      SetPartBit(bin, Off(i0, iDivisor));
      assert View().apSub == v.apSub[bin := Some(Spec.Set(L, PartOf(L, v, i0), Off(i0, iDivisor)))];
    }

    /** A set in hash form: store the value, or split the node when crowded. */
    method SetHash(i0: nat)
      requires Valid() && WF(L, View()) && i0 < iSize && iDivisor == 0 && iSize > L.NBit()
      modifies Repr
      ensures Valid() && fresh(Repr - old(Repr))
      ensures View() == Spec.Set(L, old(View()), i0)
      decreases iSize, 5
    {
      hide TableOk, NonZero, Probe, ActionOf, HasFree;
      ghost var v := View();
      var act, h := Decide(i0);
      ActionOk(L, v, i0);
      match act
      case Present =>
      case Store => StoreAt(h, i0 + 1);
      case Split => SplitNode(i0);
    }

    /** Where the value is or goes, and what is to be done with it. */
    method Decide(i0: nat) returns (act: HashAction, h: nat)
      requires Valid() && WF(L, View()) && i0 < iSize && iDivisor == 0 && iSize > L.NBit()
      ensures View().Hashed? && act == ActionOf(L, View(), i0) && h == Probe(aHash[..], i0 + 1) && h < aHash.Length
    {
      ghost var a := aHash[..];
      assert TableOk(a) && NonZero(a) < |a|;
      NonZeroBound(a);
      h := i0 % L.NInt();
      WalkAtHome(a, i0 + 1);
      assert a[h] == aHash[h];
      if aHash[h] == 0 && nSet < L.NInt() - 1 {
        return Store, h;
      }
      h := FindSlot(i0 + 1);
      assert a[h] == aHash[h];
      if aHash[h] == i0 + 1 { return Present, h; }
      act := if nSet >= L.MxHash() then Split else Store;
    }

    /** Turn the table into parts, all missing. */
    method ClearToParts() returns (aiValues: seq<nat>)
      requires Valid() && WF(L, View()) && iDivisor == 0 && iSize > L.NBit()
      modifies this`iDivisor, apSub
      ensures Valid() && Repr == old(Repr) && iDivisor > 0
      ensures old(View()).Hashed? && aiValues == old(View()).aHash && View() == Parts(L, iSize)
    {
      hide TableOk, NonZero;
      PointersFit(L);
      DivisorBounds(iSize, L.NPtr());
      aiValues := aHash[..];
      forall k | 0 <= k < apSub.Length {
        apSub[k] := null;
      }
      iDivisor := (iSize + L.NPtr() - 1) / L.NPtr();
      assert forall k :: 0 <= k < apSub.Length ==> PartView(k) == None;
      assert View().apSub == Parts(L, iSize).apSub;
    }

    /** Turn the table into parts, then set the new bit and all stored ones. */
    method SplitNode(i0: nat)
      requires Valid() && WF(L, View()) && i0 < iSize && iDivisor == 0 && iSize > L.NBit()
      requires View().Hashed? && |View().aHash| > 0 && ActionOf(L, View(), i0) == Split
      modifies Repr
      ensures Valid() && fresh(Repr - old(Repr))
      ensures View() == Spec.Set(L, old(View()), i0)
      decreases iSize, 4
    {
      hide TableOk, NonZero, ActionOf, Parts;
      ghost var v := View();
      var aiValues := ClearToParts();
      PartsEmpty(L, iSize, i0);
      Set(i0 + 1);
      ghost var first := View();
      assert Spec.Set(L, v, i0) == SetAll(L, first, aiValues, 0);
      SetStored(aiValues);
    }

    /** The loop that sets the stored values again. */
    method SetStored(aiValues: seq<nat>)
      requires Valid() && WF(L, View()) && iDivisor > 0
      requires forall s :: 0 <= s < |aiValues| ==> aiValues[s] <= iSize
      modifies Repr
      ensures Valid() && fresh(Repr - old(Repr))
      ensures old(View()).Divided? && View() == SetAll(L, old(View()), aiValues, 0)
      decreases iSize, 4, 0
    {
      hide WF, Spec.Set;
      ghost var v := View();
      var j := 0;
      while j < |aiValues|
        invariant 0 <= j <= |aiValues| && Valid() && fresh(Repr - old(Repr)) && iDivisor > 0
        invariant View().Divided? && View().iSize == iSize && WF(L, View())
        invariant SetAll(L, View(), aiValues, j) == SetAll(L, v, aiValues, 0)
      {
        if aiValues[j] != 0 {
          Set(aiValues[j]);
        }
        j := j + 1;
      }
    }

    // ----- clearing -----

    /** sqlite3BitvecClear() */
    method Clear(i: nat)
      requires Valid() && WF(L, View()) && 1 <= i <= iSize
      modifies Repr
      ensures Valid() && Repr == old(Repr)
      ensures View() == Spec.Clear(L, old(View()), i - 1)
      decreases iSize, 1
    {
      hide WF, Spec.Clear;
      if iDivisor != 0 {
        ClearInPart(i - 1);
      } else if iSize <= L.NBit() {
        ClearBitmapBit(i - 1);
      } else {
        ClearHash(i - 1);
      }
    }

    method ClearBitmapBit(i0: nat)
      requires Valid() && WF(L, View()) && i0 < iSize && iDivisor == 0 && iSize <= L.NBit()
      modifies aBitmap
      ensures Valid() && View() == Spec.Clear(L, old(View()), i0)
    {
      hide WithoutBit;
      BitmapIndex(L, i0, iSize);
      ghost var b := aBitmap[..];
      aBitmap[i0 / 8] := WithoutBit(aBitmap[i0 / 8], i0 % 8);
      assert aBitmap[..] == b[i0 / 8 := WithoutBit(b[i0 / 8], i0 % 8)];
    }

    method ClearInPart(i0: nat)
      requires Valid() && WF(L, View()) && i0 < iSize && iDivisor != 0
      modifies Repr
      ensures Valid() && Repr == old(Repr)
      ensures View() == Spec.Clear(L, old(View()), i0)
      decreases iSize, 0
    {
      hide WF, Bin, Off;
      PartAt(i0);
      var bin := Bin(i0, iDivisor);
      ghost var v := View();
      var sub := apSub[bin];
      if sub != null {
        assert PartOk(bin);
        sub.Clear(Off(i0, iDivisor) + 1);
        Repr := Repr + sub.Repr;
        PartChanged(bin);
      }
      assert View() == Spec.Clear(L, v, i0);
    }

    /** Rebuild the table without the value of bit `i0`. */
    method ClearHash(i0: nat)
      requires Valid() && WF(L, View()) && i0 < iSize && iDivisor == 0 && iSize > L.NBit()
      modifies this`nSet, aHash
      ensures Valid() && Repr == old(Repr)
      ensures View() == Spec.Clear(L, old(View()), i0)
    {
      ghost var v := View();
      var aiValues := aHash[..];
      assert TableOk(aiValues) && NonZero(aiValues) < |aiValues|;
      NonZeroBound(aiValues);
      RebuildTable(aiValues, i0 + 1);
      assert v.aHash == aiValues;
    }

    method RebuildTable(aiValues: seq<nat>, skip: nat)
      requires aHash.Length == |aiValues| == L.NInt() && TableOk(aiValues) && HasFree(aiValues)
      modifies this`nSet, aHash
      ensures aHash[..] == Rebuild(aiValues, |aiValues|, skip) && nSet == Kept(aiValues, |aiValues|, skip)
    {
      forall k | 0 <= k < aHash.Length {
        aHash[k] := 0;
      }
      nSet := 0;
      assert aHash[..] == Empty(L.NInt());
      var j := 0;
      while j < |aiValues|
        invariant 0 <= j <= |aiValues|
        invariant aHash[..] == Rebuild(aiValues, j, skip) && nSet == Kept(aiValues, j, skip)
      {
        var v := aiValues[j];
        if v != 0 && v != skip {
          ghost var a := aHash[..];
          RebuildOk(aiValues, j, skip);
          nSet := nSet + 1;
          var h := FindFree(v, aiValues, j, skip);
          aHash[h] := v;
          assert aHash[..] == a[h := v];
        }
        j := j + 1;
      }
    }

    /** The probe loop of the rebuild looks for a free slot only. */
    method FindFree(v: nat, ghost values: seq<nat>, ghost k: nat, ghost skip: nat) returns (h: nat)
      requires aHash.Length == L.NInt() == |values| && k < |values| && v == values[k] && v > 0
      requires TableOk(values) && HasFree(values) && aHash[..] == Rebuild(values, k, skip)
      ensures h == Probe(aHash[..], v) && h < aHash.Length
    {
      ghost var a := aHash[..];
      ghost var n, home := |a|, Home(|a|, v);
      RebuildOk(values, k, skip);
      assert v !in values[..k];
      assert v !in a;
      WalkStops(a, home, v);
      h := (v - 1) % L.NInt();
      ghost var d := 0;
      while aHash[h] != 0
        invariant 0 <= d < n && h == Slot(n, home, d)
        invariant Walk(a, home, 0, v) == Walk(a, home, d, v)
        decreases n - d
      {
        assert a[h] == aHash[h] && a[h] in a;
        NextSlot(n, home, d);
        h := h + 1;
        if h >= L.NInt() {
          h := 0;
        }
        d := d + 1;
      }
      assert a[h] == aHash[h];
    }

    /** sqlite3BitvecSize() */
    function Size(): nat {
      iSize
    }
  }
}
