/** A Bitvec on values: the three forms, and what setting, clearing and testing
    a bit do to them.  Inside, bits are numbered from 0. */
module BitvecSpec {
  import opened Arithmetic
  import opened BitvecHash
  import opened Seqs

  /** Sizes derived from that of the structure: bytes of the union and of a
      pointer.  The union holds whole pointers, and at least two of them. */
  datatype Layout = Layout(uSize: nat, ptrSize: nat) {
    predicate Valid() {
      (ptrSize == 4 || ptrSize == 8) && uSize % ptrSize == 0 && uSize >= 2 * ptrSize
    }
    function NElem(): nat { uSize }
    function NBit(): nat { uSize * 8 }
    function NInt(): nat { uSize / 4 }
    function MxHash(): nat { NInt() / 2 }
    function NPtr(): nat
      requires Valid()
    {
      uSize / ptrSize
    }
  }


  datatype Bv =
    | Bitmap(iSize: nat, aBitmap: seq<bv8>)
    | Hashed(iSize: nat, nSet: nat, aHash: seq<nat>)
    | Divided(iSize: nat, iDivisor: nat, apSub: seq<Option<Bv>>)

  /** Bits per sub-bitmap when `iSize` bits are split. */
  function Divisor(L: Layout, iSize: nat): nat
    requires L.Valid()
  {
    (iSize + L.NPtr() - 1) / L.NPtr()
  }

  function Create(L: Layout, iSize: nat): (v: Bv)
    ensures v.iSize == iSize
  {
    if iSize <= L.NBit() then Bitmap(iSize, seq(L.NElem(), i => 0)) else Hashed(iSize, 0, Empty(L.NInt()))
  }

  function Mask(k: nat): bv8
    requires k < 8
  {
    (1 as bv8) << k
  }

  predicate BitOn(b: bv8, k: nat)
    requires k < 8
  {
    b & Mask(k) != 0
  }

  function WithBit(b: bv8, k: nat): bv8
    requires k < 8
  {
    b | Mask(k)
  }

  function WithoutBit(b: bv8, k: nat): bv8
    requires k < 8
  {
    b & !Mask(k)
  }

  /** Which part a bit is in when each part has `d` bits, and where in it. */
  function Bin(i: nat, d: nat): nat
    requires d > 0
  {
    i / d
  }

  function Off(i: nat, d: nat): (o: nat)
    requires d > 0
    ensures o < d
  {
    i % d
  }

  // ----- well-formed values -----

  ghost predicate WF(L: Layout, v: Bv)
    requires L.Valid()
    decreases v
  {
    match v
    case Bitmap(n, bits) => n <= L.NBit() && |bits| == L.NElem()
    case Hashed(n, nSet, a) =>
      && n > L.NBit() && |a| == L.NInt() && TableOk(a)
      && nSet == NonZero(a) < L.NInt()
      && forall s :: 0 <= s < |a| ==> a[s] <= n
    case Divided(n, div, subs) =>
      && n > L.NBit() && div == Divisor(L, n) && |subs| == L.NPtr()
      && forall k :: 0 <= k < |subs| && subs[k].Some? ==> WF(L, subs[k].value) && subs[k].value.iSize == div
  }

  /** Membership, as the representation is meant. */
  predicate Has(L: Layout, v: Bv, i: nat)
    decreases v
  {
    match v
    case Bitmap(n, bits) => i / 8 < |bits| && BitOn(bits[i / 8], i % 8)
    case Hashed(n, nSet, a) => i + 1 in a
    case Divided(n, div, subs) =>
      div > 0 && Bin(i, div) < |subs| && subs[Bin(i, div)].Some? && Has(L, subs[Bin(i, div)].value, Off(i, div))
  }

  // ----- operations -----

  /** The test that the code makes: probing instead of searching. */
  predicate Test(L: Layout, v: Bv, i: nat)
    requires L.Valid() && WF(L, v) && i < v.iSize
    decreases v
  {
    match v
    case Bitmap(n, bits) =>
      BitmapIndex(L, i, n);
      BitOn(bits[i / 8], i % 8)
    case Hashed(n, nSet, a) => a[Probe(a, i + 1)] == i + 1
    case Divided(n, div, subs) =>
      BinBounds(L, n, i);
      subs[Bin(i, div)].Some? && Test(L, subs[Bin(i, div)].value, Off(i, div))
  }

  lemma BitmapIndex(L: Layout, i: nat, n: nat)
    requires i < n <= L.NBit()
    ensures i / 8 < L.NElem()
  {
  }

  lemma PointersFit(L: Layout)
    requires L.Valid()
    ensures L.NPtr() >= 2 && L.NInt() >= 2 && L.MxHash() < L.NInt() && L.NBit() >= 64
  {
    if L.ptrSize == 4 {
    } else {
    }
  }

  lemma DivisorBounds(n: nat, p: nat)
    requires p >= 2 && n >= 2
    ensures var d := (n + p - 1) / p; 0 < d < n <= p * d
  {
    var d, r := (n + p - 1) / p, (n + p - 1) % p;
    assert n + p - 1 == d * p + r;
    if d >= n {
      MulMonotone(n, d, p);
      Distribute(n, 1, p);
      MulMonotone(2, p, n - 1);
    }
  }

  /** Splitting makes the parts strictly smaller, and every bit has its part. */
  lemma BinBounds(L: Layout, n: nat, i: nat)
    requires L.Valid() && n > L.NBit() && i < n
    ensures 0 < Divisor(L, n) < n && Bin(i, Divisor(L, n)) < L.NPtr()
  {
    PointersFit(L);
    DivisorBounds(n, L.NPtr());
    DivLess(i, L.NPtr(), Divisor(L, n));
  }

  // ----- setting -----

  lemma CreateOk(L: Layout, iSize: nat)
    requires L.Valid()
    ensures WF(L, Create(L, iSize)) && forall j :: 0 <= j < iSize ==> !Has(L, Create(L, iSize), j)
  {
    PointersFit(L);
    NonZeroNone(Empty(L.NInt()));
  }

  function StoreHash(v: Bv, i: nat): Bv
    requires v.Hashed? && |v.aHash| > 0
  {
    v.(nSet := v.nSet + 1, aHash := v.aHash[Probe(v.aHash, i + 1) := i + 1])
  }

  /** What a value not yet in the table does to it. */
  lemma StoreHashOk(L: Layout, v: Bv, i: nat)
    requires L.Valid() && WF(L, v) && v.Hashed? && i < v.iSize
    requires v.aHash[Probe(v.aHash, i + 1)] != i + 1 && v.nSet + 1 < L.NInt()
    ensures WF(L, StoreHash(v, i))
    ensures forall x :: x != 0 ==> (x in StoreHash(v, i).aHash <==> x in v.aHash || x == i + 1)
  {
    hide TableOk, NonZero, Probe, HasFree;
    var a := v.aHash;
    NonZeroBound(a);
    ProbeFinds(a, i + 1);
    StoreOk(a, i + 1);
    NonZeroStore(a, Probe(a, i + 1), i + 1);
  }

  /** How the table form answers a new bit. */
  datatype HashAction = Present | Store | Split

  function ActionOf(L: Layout, v: Bv, i: nat): HashAction
    requires v.Hashed? && |v.aHash| > 0
  {
    var a := v.aHash;
    if a[Home(|a|, i + 1)] == 0 && v.nSet < L.NInt() - 1 then Store
    else if a[Probe(a, i + 1)] == i + 1 then Present
    else if v.nSet >= L.MxHash() then Split
    else Store
  }

  lemma ActionOk(L: Layout, v: Bv, i: nat)
    requires L.Valid() && WF(L, v) && v.Hashed? && i < v.iSize
    ensures ActionOf(L, v, i) == Present ==> i + 1 in v.aHash
    ensures ActionOf(L, v, i) == Store ==> v.aHash[Probe(v.aHash, i + 1)] != i + 1 && v.nSet + 1 < L.NInt()
  {
    hide TableOk, NonZero, HasFree;
    PointersFit(L);
    NonZeroBound(v.aHash);
    ProbeFinds(v.aHash, i + 1);
    WalkAtHome(v.aHash, i + 1);
  }

  lemma WalkAtHome(a: seq<nat>, v: nat)
    requires |a| > 0 && v > 0
    ensures a[Home(|a|, v)] == 0 ==> Probe(a, v) == Home(|a|, v)
  {
  }

  function Parts(L: Layout, iSize: nat): Bv
    requires L.Valid()
  {
    Divided(iSize, Divisor(L, iSize), seq(L.NPtr(), k => None))
  }

  /** The part that bit `i` belongs to, created if it is missing. */
  function PartOf(L: Layout, v: Bv, i: nat): (s: Bv)
    requires L.Valid() && WF(L, v) && v.Divided? && i < v.iSize
    ensures v.iDivisor > 0 && Bin(i, v.iDivisor) < |v.apSub| && Off(i, v.iDivisor) < v.iDivisor < v.iSize
    ensures WF(L, s) && s.iSize == v.iDivisor
  {
    BinBounds(L, v.iSize, i);
    CreateOk(L, v.iDivisor);
    var sub := v.apSub[Bin(i, v.iDivisor)];
    if sub.Some? then sub.value else Create(L, v.iDivisor)
  }

  /** Setting bit `i`.  A crowded table is split into parts, and the new bit and
      then all values of the table are set again; the parts are smaller. */
  function Set(L: Layout, v: Bv, i: nat): (r: Bv)
    requires L.Valid() && WF(L, v) && i < v.iSize
    ensures r.iSize == v.iSize && WF(L, r) && (v.Divided? ==> r.Divided?)
    decreases v.iSize, if v.Hashed? then 2 else 0, 0
  {
    match v
    case Bitmap(n, bits) =>
      BitmapIndex(L, i, n);
      Bitmap(n, bits[i / 8 := WithBit(bits[i / 8], i % 8)])
    case Hashed(n, nSet, a) =>
      hide TableOk, NonZero, Probe;
      ActionOk(L, v, i);
      (match ActionOf(L, v, i)
       case Present => v
       case Store =>
         StoreHashOk(L, v, i);
         StoreHash(v, i)
       case Split => SetAll(L, Set(L, Parts(L, n), i), a, 0))
    case Divided(n, div, subs) =>
      var sub := PartOf(L, v, i);
      Divided(n, div, subs[Bin(i, div) := Some(Set(L, sub, Off(i, div)))])
  }

  /** Setting the stored values from position `k` on. */
  function SetAll(L: Layout, v: Bv, values: seq<nat>, k: nat): (r: Bv)
    requires L.Valid() && WF(L, v) && v.Divided? && k <= |values|
    requires forall s :: 0 <= s < |values| ==> values[s] <= v.iSize
    ensures r.iSize == v.iSize && WF(L, r) && r.Divided?
    decreases v.iSize, 1, |values| - k
  {
    if k == |values| then v
    else if values[k] == 0 then SetAll(L, v, values, k + 1)
    else SetAll(L, Set(L, v, values[k] - 1), values, k + 1)
  }

  /** When a table is given up: only if the slot of the new bit is taken and the table
      is half full, or when one free slot is left. */
  lemma SplitsExactly(L: Layout, v: Bv, i: nat)
    requires L.Valid() && WF(L, v) && v.Hashed? && i < v.iSize && i + 1 !in v.aHash
    ensures Set(L, v, i).Divided? <==>
              v.nSet >= L.NInt() - 1 || (v.aHash[i % L.NInt()] != 0 && v.nSet >= L.NInt() / 2)
  {
    hide TableOk, NonZero, Probe, SetAll;
    PointersFit(L);
    ActionOk(L, v, i);
  }

  // ----- what setting does -----

  lemma MaskCases(k: nat)
    requires k < 8
    ensures Mask(k) == (match k case 0 => 1 case 1 => 2 case 2 => 4 case 3 => 8 case 4 => 16 case 5 => 32 case 6 => 64 case _ => 128)
  {
  }

  lemma MaskBits(b: bv8, k: nat, j: nat)
    requires k < 8 && j < 8
    ensures BitOn(WithBit(b, k), j) <==> j == k || BitOn(b, j)
    ensures BitOn(WithoutBit(b, k), j) <==> j != k && BitOn(b, j)
  {
    MaskCases(k);
    MaskCases(j);
  }

  lemma BitmapUpdate(bits: seq<bv8>, i: nat, j: nat)
    requires i / 8 < |bits| && j / 8 < |bits|
    ensures BitOn(bits[i / 8 := WithBit(bits[i / 8], i % 8)][j / 8], j % 8) <==> j == i || BitOn(bits[j / 8], j % 8)
    ensures BitOn(bits[i / 8 := WithoutBit(bits[i / 8], i % 8)][j / 8], j % 8) <==> j != i && BitOn(bits[j / 8], j % 8)
  {
    hide BitOn, WithBit, WithoutBit;
    if i / 8 == j / 8 {
      MaskBits(bits[i / 8], i % 8, j % 8);
    }
  }

  lemma SetBitmapHas(L: Layout, v: Bv, i: nat, j: nat)
    requires L.Valid() && WF(L, v) && v.Bitmap? && i < v.iSize && j < v.iSize
    ensures Has(L, Set(L, v, i), j) <==> Has(L, v, j) || j == i
  {
    hide BitOn, WithBit, WithoutBit;
    BitmapIndex(L, i, v.iSize);
    BitmapIndex(L, j, v.iSize);
    BitmapUpdate(v.aBitmap, i, j);
  }

  lemma ClearBitmapHas(L: Layout, v: Bv, i: nat, j: nat)
    requires L.Valid() && WF(L, v) && v.Bitmap? && i < v.iSize && j < v.iSize
    ensures Has(L, Clear(L, v, i), j) <==> Has(L, v, j) && j != i
  {
    hide BitOn, WithBit, WithoutBit;
    BitmapIndex(L, i, v.iSize);
    BitmapIndex(L, j, v.iSize);
    BitmapUpdate(v.aBitmap, i, j);
  }

  /** Replacing the part of bit `i` decides the bits of that part only. */
  lemma UpdatePartHas(L: Layout, v: Bv, i: nat, r: Bv, j: nat)
    requires L.Valid() && WF(L, v) && v.Divided? && i < v.iSize && j < v.iSize
    requires v.iDivisor > 0 && Bin(i, v.iDivisor) < |v.apSub|
    ensures Has(L, v.(apSub := v.apSub[Bin(i, v.iDivisor) := Some(r)]), j)
            <==> if Bin(i, v.iDivisor) == Bin(j, v.iDivisor) then Has(L, r, Off(j, v.iDivisor)) else Has(L, v, j)
  {
    hide Bin, Off, BitOn;
    BinBounds(L, v.iSize, j);
  }

  lemma PartHas(L: Layout, v: Bv, i: nat, j: nat)
    requires L.Valid() && WF(L, v) && v.Divided? && i < v.iSize && j < v.iSize && v.iDivisor > 0
    requires Bin(i, v.iDivisor) == Bin(j, v.iDivisor)
    ensures Has(L, v, j) <==> Has(L, PartOf(L, v, i), Off(j, v.iDivisor))
  {
    hide Bin, Off, BitOn;
    BinBounds(L, v.iSize, j);
    CreateOk(L, v.iDivisor);
  }

  lemma {:induction false} SetHas(L: Layout, v: Bv, i: nat, j: nat)
    requires L.Valid() && WF(L, v) && i < v.iSize && j < v.iSize
    ensures Has(L, Set(L, v, i), j) <==> Has(L, v, j) || j == i
    decreases v.iSize, if v.Hashed? then 2 else 0, 0
  {
    hide TableOk, NonZero, Probe, ActionOf, BitOn, WithBit, WithoutBit, Bin, Off, PartOf;
    match v
    case Bitmap(n, bits) => SetBitmapHas(L, v, i, j);
    case Hashed(n, nSet, a) =>
      if ActionOf(L, v, i) != Split {
        StoreHas(L, v, i, j);
      } else {
        var p := Parts(L, n);
        PartsEmpty(L, n, j);
        SetHas(L, p, i, j);
        SetAllHas(L, Set(L, p, i), a, 0, j);
        assert a[0..] == a;
      }
    case Divided(n, div, subs) =>
      var sub := PartOf(L, v, i);
      UpdatePartHas(L, v, i, Set(L, sub, Off(i, div)), j);
      if Bin(i, div) == Bin(j, div) {
        BinBounds(L, n, j);
        PartHas(L, v, i, j);
        SetHas(L, sub, Off(i, div), Off(j, div));
        SameBin(i, j, div);
      }
  }

  lemma PartsEmpty(L: Layout, n: nat, j: nat)
    requires L.Valid() && n > L.NBit() && j < n
    ensures WF(L, Parts(L, n)) && !Has(L, Parts(L, n), j)
  {
    hide Bin, Off, BitOn;
    BinBounds(L, n, j);
  }

  lemma SameBin(i: nat, j: nat, d: nat)
    requires d > 0 && Bin(i, d) == Bin(j, d)
    ensures i == j <==> Off(i, d) == Off(j, d)
  {
    assert i == (i / d) * d + i % d && j == (j / d) * d + j % d;
  }

  lemma {:induction false} SetAllHas(L: Layout, v: Bv, values: seq<nat>, k: nat, j: nat)
    requires L.Valid() && WF(L, v) && v.Divided? && k <= |values| && j < v.iSize
    requires forall s :: 0 <= s < |values| ==> values[s] <= v.iSize
    ensures Has(L, SetAll(L, v, values, k), j) <==> Has(L, v, j) || j + 1 in values[k..]
    decreases v.iSize, 1, |values| - k
  {
    hide TableOk, NonZero, Set, Has;
    if k < |values| {
      assert values[k..] == [values[k]] + values[k+1..];
      if values[k] == 0 {
        SetAllHas(L, v, values, k + 1, j);
      } else {
        SetHas(L, v, values[k] - 1, j);
        SetAllHas(L, Set(L, v, values[k] - 1), values, k + 1, j);
      }
    } else {
      assert values[k..] == [];
    }
  }

  // ----- clearing -----

  function Clear(L: Layout, v: Bv, i: nat): (r: Bv)
    requires L.Valid() && WF(L, v) && i < v.iSize
    ensures r.iSize == v.iSize && WF(L, r)
    decreases v
  {
    hide TableOk, NonZero, Kept, Rebuild;
    match v
    case Bitmap(n, bits) =>
      BitmapIndex(L, i, n);
      Bitmap(n, bits[i / 8 := WithoutBit(bits[i / 8], i % 8)])
    case Hashed(n, nSet, a) =>
      ClearHashOk(L, v, i);
      Hashed(n, Kept(a, |a|, i + 1), Rebuild(a, |a|, i + 1))
    case Divided(n, div, subs) =>
      BinBounds(L, n, i);
      var bin := Bin(i, div);
      if subs[bin].None? then v
      else Divided(n, div, subs[bin := Some(Clear(L, subs[bin].value, Off(i, div)))])
  }

  lemma ClearHashOk(L: Layout, v: Bv, i: nat)
    requires L.Valid() && WF(L, v) && v.Hashed? && i < v.iSize
    ensures WF(L, Hashed(v.iSize, Kept(v.aHash, |v.aHash|, i + 1), Rebuild(v.aHash, |v.aHash|, i + 1)))
    ensures forall x :: x != 0 ==> (x in Rebuild(v.aHash, |v.aHash|, i + 1) <==> x in v.aHash && x != i + 1)
  {
    hide TableOk, NonZero, HasFree, Kept, Rebuild;
    var a := v.aHash;
    NonZeroBound(a);
    RebuildOk(a, |a|, i + 1);
    assert a[..|a|] == a;
    var b := Rebuild(a, |a|, i + 1);
    forall s | 0 <= s < |b| ensures b[s] <= v.iSize {
      if b[s] != 0 {
        assert b[s] in b;
      }
    }
  }

  lemma ClearHashHas(L: Layout, v: Bv, i: nat, j: nat)
    requires L.Valid() && WF(L, v) && v.Hashed? && i < v.iSize && j < v.iSize
    ensures Has(L, Clear(L, v, i), j) <==> Has(L, v, j) && j != i
  {
    hide TableOk, NonZero, Kept, Rebuild;
    ClearHashOk(L, v, i);
    assert j + 1 in Rebuild(v.aHash, |v.aHash|, i + 1) <==> j + 1 in v.aHash && j + 1 != i + 1;
  }

  lemma StoreHas(L: Layout, v: Bv, i: nat, j: nat)
    requires L.Valid() && WF(L, v) && v.Hashed? && i < v.iSize && j < v.iSize
    requires ActionOf(L, v, i) != Split
    ensures Has(L, Set(L, v, i), j) <==> Has(L, v, j) || j == i
  {
    hide TableOk, NonZero, Probe, ActionOf;
    ActionOk(L, v, i);
    if ActionOf(L, v, i) == Store {
      StoreHashOk(L, v, i);
      assert j + 1 in StoreHash(v, i).aHash <==> j + 1 in v.aHash || j + 1 == i + 1;
      assert Set(L, v, i) == StoreHash(v, i);
    }
  }

  lemma {:induction false} ClearHas(L: Layout, v: Bv, i: nat, j: nat)
    requires L.Valid() && WF(L, v) && i < v.iSize && j < v.iSize
    ensures Has(L, Clear(L, v, i), j) <==> Has(L, v, j) && j != i
    decreases v
  {
    hide TableOk, NonZero, Kept, Rebuild, BitOn, WithBit, WithoutBit, Bin, Off;
    match v
    case Bitmap(n, bits) => ClearBitmapHas(L, v, i, j);
    case Hashed(n, nSet, a) => ClearHashHas(L, v, i, j);
    case Divided(n, div, subs) =>
      BinBounds(L, n, i);
      BinBounds(L, n, j);
      if subs[Bin(i, div)].Some? {
        var sub := subs[Bin(i, div)].value;
        UpdatePartHas(L, v, i, Clear(L, sub, Off(i, div)), j);
        if Bin(i, div) == Bin(j, div) {
          ClearHas(L, sub, Off(i, div), Off(j, div));
          SameBin(i, j, div);
        }
      }
  }

  // ----- testing -----

  lemma {:induction false} TestIsHas(L: Layout, v: Bv, i: nat)
    requires L.Valid() && WF(L, v) && i < v.iSize
    ensures Test(L, v, i) <==> Has(L, v, i)
    decreases v
  {
    hide TableOk, NonZero, Probe, BitOn, WithBit, WithoutBit, Bin, Off;
    match v
    case Bitmap(n, bits) => BitmapIndex(L, i, n);
    case Hashed(n, nSet, a) =>
      NonZeroBound(a);
      ProbeFinds(a, i + 1);
    case Divided(n, div, subs) =>
      BinBounds(L, n, i);
      if subs[Bin(i, div)].Some? {
        TestIsHas(L, subs[Bin(i, div)].value, Off(i, div));
      }
  }

  // ----- operation sequences -----

  /** sqlite3BitvecTestNotNull(): the bit number wraps round when it is 0. */
  predicate TestBit(L: Layout, v: Bv, i: nat)
    requires L.Valid() && WF(L, v)
  {
    var i0 := (i - 1) % U32;
    i0 < v.iSize && Test(L, v, i0)
  }

  datatype Op = SetBit(i: nat) | ClearBit(i: nat)

  ghost predicate OpsInRange(ops: seq<Op>, iSize: nat) {
    forall k :: 0 <= k < |ops| ==> 1 <= ops[k].i <= iSize
  }

  function Apply(L: Layout, ops: seq<Op>, iSize: nat): (v: Bv)
    requires L.Valid() && OpsInRange(ops, iSize)
    ensures WF(L, v) && v.iSize == iSize
  {
    if ops == [] then
      CreateOk(L, iSize);
      Create(L, iSize)
    else
      var v := Apply(L, ops[..|ops|-1], iSize);
      match ops[|ops|-1]
      case SetBit(i) => Set(L, v, i - 1)
      case ClearBit(i) => Clear(L, v, i - 1)
  }

  /** The same operations on a mathematical set. */
  function ApplySet(ops: seq<Op>): set<nat> {
    if ops == [] then {}
    else
      match ops[|ops|-1]
      case SetBit(i) => ApplySet(ops[..|ops|-1]) + {i}
      case ClearBit(i) => ApplySet(ops[..|ops|-1]) - {i}
  }

  lemma {:induction false} ApplyHas(L: Layout, ops: seq<Op>, iSize: nat, j: nat)
    requires L.Valid() && OpsInRange(ops, iSize) && j < iSize
    ensures Has(L, Apply(L, ops, iSize), j) <==> j + 1 in ApplySet(ops)
  {
    hide WF, Set, Clear, Has, Create;
    if ops == [] {
      CreateOk(L, iSize);
    } else {
      var pre, op := ops[..|ops|-1], ops[|ops|-1];
      assert OpsInRange(pre, iSize);
      ApplyHas(L, pre, iSize, j);
      match op
      case SetBit(i) => SetHas(L, Apply(L, pre, iSize), i - 1, j);
      case ClearBit(i) => ClearHas(L, Apply(L, pre, iSize), i - 1, j);
    }
  }

  lemma {:induction false} ApplySetRange(ops: seq<Op>, iSize: nat, i: nat)
    requires OpsInRange(ops, iSize) && i in ApplySet(ops)
    ensures 1 <= i <= iSize
  {
    if ops != [] {
      var pre := ops[..|ops|-1];
      assert OpsInRange(pre, iSize);
      assert 1 <= ops[|ops|-1].i <= iSize;
      if i in ApplySet(pre) {
        ApplySetRange(pre, iSize, i);
      }
    }
  }

  /** For every sequence of operations, in every form the Bitvec passes through,
      testing any u32 bit number gives membership in the set; 0 and numbers above
      the size are never members. */
  lemma BitvecIsSet(L: Layout, ops: seq<Op>, iSize: nat, i: nat)
    requires L.Valid() && OpsInRange(ops, iSize) && iSize < U32 && i < U32
    ensures TestBit(L, Apply(L, ops, iSize), i) <==> i in ApplySet(ops)
  {
    hide WF, Test, Has, Apply;
    if 1 <= i <= iSize {
      TestIsHas(L, Apply(L, ops, iSize), i - 1);
      ApplyHas(L, ops, iSize, i - 1);
    } else if i in ApplySet(ops) {
      ApplySetRange(ops, iSize, i);
    }
  }
}
