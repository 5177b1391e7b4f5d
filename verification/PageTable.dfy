/**
 The four-level page table (4KB granule, chapter D5 of the Arm Architecture Reference
 Manual DDI 0487G.b): table pages hold 512 entries, and the walk should amount to a flat
 map from page numbers to entries.
 */
module PageTable {
  import opened Bits
  import opened Pages
  import opened Products

  const ENTRIES: nat := 512
  const TABLE: nat := 3                  // the flags of an entry that points to a table

  /** The index into the table at level `l`. */
  function Index(va: nat, l: nat): (i: nat)
    requires l <= 3
    ensures i < ENTRIES
  {
    if l == 0 then va / 0x80_0000_0000 % 512
    else if l == 1 then va / 0x4000_0000 % 512
    else if l == 2 then va / 0x20_0000 % 512
    else va / 0x1000 % 512
  }

  /** `VA_PART0` to `VA_PART3`: nine bits, masked and shifted down. */
  lemma {:induction false} IndexIsMasked(va: nat)
    ensures Index(va, 0) == Shr(And(va, 0xFF80_0000_0000), 39) && Index(va, 1) == Shr(And(va, 0x7F_C000_0000), 30)
    ensures Index(va, 2) == Shr(And(va, 0x3FE0_0000), 21) && Index(va, 3) == Shr(And(va, 0x1F_F000), 12)
  {
    hide Index, And, Shr, Shl, Low, Pow2;
    Pow2Values();
    Field(va, 39);
    Field(va, 30);
    Field(va, 21);
    Field(va, 12);
    IndexIs(va);
  }

  lemma {:induction false} IndexIs(va: nat)
    ensures Index(va, 0) == va / 0x80_0000_0000 % 512 && Index(va, 1) == va / 0x4000_0000 % 512
    ensures Index(va, 2) == va / 0x20_0000 % 512 && Index(va, 3) == va / 0x1000 % 512
  {
  }

  lemma {:induction false} Field(va: nat, j: nat)
    ensures Shr(And(va, 511 * Pow2(j)), j) == va / Pow2(j) % 512
  {
    hide And, Shr, Shl, Low, Pow2;
    Pow2Values();
    AndField(va, j, 9);
    ShlMultiplies(511, j);
    var f := Low(Shr(va, j), 9);
    ShrDivides(va, j);
    LowIsRemainder(va / Pow2(j), 9);
    PartsAre(f, 0, j);
  }

  /** The page number the walk looks at. */
  function PageNo(va: nat): nat
  {
    va / PAGE % 0x10_0000_0000
  }

  lemma {:induction false} IndicesArePageNo(va: nat)
    ensures PageNo(va) == ((Index(va, 0) * 512 + Index(va, 1)) * 512 + Index(va, 2)) * 512 + Index(va, 3)
  {
    var v := va / 0x1000;
    DivideTwice(va, 0x1000, 512);
    DivideTwice(va, 0x20_0000, 512);
    DivideTwice(va, 0x4000_0000, 512);
    FourDigits(v);
  }

  lemma {:induction false} FourDigits(v: nat)
    ensures v % 0x10_0000_0000 ==
            ((v / 512 / 512 / 512 % 512 * 512 + v / 512 / 512 % 512) * 512 + v / 512 % 512) * 512 + v % 512
  {
    var a := v / 512;
    var b := a / 512;
    var c := b / 512;
    var d := c / 512;
    Divides(v, 512);
    Divides(a, 512);
    Divides(b, 512);
    Divides(c, 512);
    QuotientIs(v, 0x10_0000_0000, d, FromDigits(v, a, b, c, d, v % 512, a % 512, b % 512, c % 512));
  }

  /** What four digits leave of a number. */
  function FromDigits(v: nat, a: nat, b: nat, c: nat, d: nat, p: nat, q: nat, r: nat, s: nat): (n: nat)
    requires v == 512 * a + p && a == 512 * b + q && b == 512 * c + r && c == 512 * d + s
    requires p < 512 && q < 512 && r < 512 && s < 512
    ensures v == 0x10_0000_0000 * d + n && n < 0x10_0000_0000
  {
    ((s * 512 + r) * 512 + q) * 512 + p
  }

  predicate Present(e: nat)
  {
    e % 2 == 1
  }

  /** `PTE_ADDRESS`. */
  function Address(e: nat): nat
  {
    e / PAGE % 0x10_0000_0000 * PAGE
  }

  /** The address bits of an entry, masked. */
  lemma {:induction false} AddressIsMasked(e: nat)
    ensures Address(e) == And(e, 0xFFFF_FFFF_F000)
  {
    hide And, Shr, Shl, Low, Pow2;
    Pow2Values();
    AndField(e, 12, 36);
    ShlMultiplies(Pow2(36) - 1, 12);
    ShrDivides(e, 12);
    LowIsRemainder(e / Pow2(12), 36);
    ShlMultiplies(Low(Shr(e, 12), 36), 12);
  }

  const KSPACE: nat := 0xFFFF_0000_0000_0000

  predicate Frame(pa: nat)
  {
    pa % PAGE == 0 && 0 < pa < 0x1_0000_0000_0000
  }

  lemma {:induction false} TableEntry(pa: nat)
    requires Frame(pa)
    ensures Present(pa + TABLE) && Address(pa + TABLE) == pa
  {
    var q := pa / PAGE;
    assert pa == PAGE * q;
    QuotientIs(pa + TABLE, PAGE, q, TABLE);
    assert pa + TABLE == 2 * (2048 * q + 1) + 1;
  }

  /**
   What `vmmap` stores for a frame and 64-bit flags: the kernel address of the frame with the
   flags or-ed in, made physical.
   */
  function MapEntry(pa: nat, flags: nat): nat
  {
    Or(pa + KSPACE, flags) - KSPACE
  }

  /** The flags from bit 48 on are lost, and those from bit 12 on fall into the address. */
  lemma {:induction false} MapEntryIs(pa: nat, flags: nat)
    requires Frame(pa) && flags < 0x1_0000_0000_0000_0000
    ensures MapEntry(pa, flags) == Or(pa, flags % 0x1_0000_0000_0000)
  {
    hide Or, Shr, Shl, Low, Pow2;
    Pow2Values();
    var ka := pa + KSPACE;
    ShlMultiplies(0xFFFF, 48);
    PartsAre(0xFFFF, pa, 48);
    OrSplit(ka, flags, 48);
    ShrDivides(flags, 48);
    LowIsRemainder(flags, 48);
    OrOnes(16, flags / 0x1_0000_0000_0000);
    Parts(Or(ka, flags), 48);
  }

  /** Flags inside the page offset are added to the address, which survives. */
  lemma {:induction false} LowFlags(pa: nat, flags: nat)
    requires Frame(pa) && flags < PAGE
    ensures MapEntry(pa, flags) == pa + flags && Address(pa + flags) == pa
  {
    hide Or, Low, Pow2, MapEntry, Address;
    MapEntryIs(pa, flags);
    Pow2Values();
    LowIsRemainder(pa, 12);
    OrAligned(pa, flags, 12);
    AddressOf(pa, flags);
  }

  lemma {:induction false} AddressOf(pa: nat, flags: nat)
    requires Frame(pa) && flags < PAGE
    ensures Address(pa + flags) == pa
  {
  }

  /** For all flags: the address survives exactly if the flags set no address bit that the frame does not have. */
  lemma {:induction false} AddressSurvives(pa: nat, flags: nat)
    requires Frame(pa) && flags < 0x1_0000_0000_0000_0000
    ensures Address(MapEntry(pa, flags)) == pa <==> Or(pa / PAGE, flags / PAGE % 0x10_0000_0000) == pa / PAGE
  {
    hide Or, Shr, Shl, Low, Pow2, MapEntry;
    MapEntryIs(pa, flags);
    Pow2Values();
    var f := flags % 0x1_0000_0000_0000;
    var e := Or(pa, f);
    OrSplit(pa, f, 12);
    ShrDivides(pa, 12);
    ShrDivides(f, 12);
    ShrDivides(e, 12);
    FlagPages(flags);
    FramePages(pa);
    OrSmall(pa / PAGE, f / PAGE, 36);
    AddressPages(e, pa);
  }

  lemma {:induction false} FlagPages(flags: nat)
    ensures flags % 0x1_0000_0000_0000 / PAGE == flags / PAGE % 0x10_0000_0000
  {
  }

  lemma {:induction false} FramePages(pa: nat)
    requires Frame(pa)
    ensures pa / PAGE < 0x10_0000_0000
  {
  }

  lemma {:induction false} AddressPages(e: nat, pa: nat)
    requires e / PAGE < 0x10_0000_0000 && pa % PAGE == 0
    ensures Address(e) == pa <==> e / PAGE == pa / PAGE
  {
  }

  type Mem = map<nat, seq<nat>>    // table pages by physical address

  // Where table pages hang: their level, and the entry that points to them.

  datatype Place = Place(level: nat, up: nat, index: nat)

  /** An entry of a table above the last level is empty or points to the table hung there. */
  ghost predicate EntryOk(mem: Mem, at: map<nat, Place>, t: nat, i: nat, e: nat)
    requires t in at
  {
    e == 0 || exists c: nat ::
        e == c + TABLE && Frame(c) && c in mem && c in at && at[c] == Place(at[t].level + 1, t, i)
  }

  ghost predicate TableOk(mem: Mem, at: map<nat, Place>, root: nat, t: nat)
    requires t in mem && t in at
  {
    && |mem[t]| == ENTRIES && Frame(t) && at[t].level <= 3 && (t == root <==> at[t].level == 0)
    && (at[t].level < 3 ==> forall i | 0 <= i < ENTRIES :: EntryOk(mem, at, t, i, mem[t][i]))
    && (t != root ==> at[t].up in mem && at[t].up in at && at[at[t].up].level + 1 == at[t].level
                      && at[t].index < ENTRIES
                      && |mem[at[t].up]| == ENTRIES && mem[at[t].up][at[t].index] == t + TABLE)
  }

  ghost predicate Tree(mem: Mem, at: map<nat, Place>, root: nat)
  {
    && mem.Keys == at.Keys && (if root == 0 then mem == map[] else root in mem)
    && forall t <- mem :: TableOk(mem, at, root, t)
  }

  /** The table of the last level for `va`, from table `t` of level `l` on. */
  ghost function Walk(mem: Mem, t: nat, va: nat, l: nat): (r: nat)
    requires l <= 3
    decreases 3 - l
  {
    if t !in mem || |mem[t]| != ENTRIES then 0
    else if l == 3 then t
    else if Present(mem[t][Index(va, l)]) then Walk(mem, Address(mem[t][Index(va, l)]), va, l + 1)
    else 0
  }

  lemma {:induction false} EntryCases(mem: Mem, at: map<nat, Place>, root: nat, t: nat, i: nat)
    requires Tree(mem, at, root) && t in mem && at[t].level < 3 && i < ENTRIES && |mem[t]| == ENTRIES
    ensures var e := mem[t][i]; Present(e) <==> e != 0
    ensures var e := mem[t][i]; Present(e) ==>
                                  Address(e) in mem && at[Address(e)] == Place(at[t].level + 1, t, i)
                                  && e == Address(e) + TABLE
  {
    assert TableOk(mem, at, root, t) && EntryOk(mem, at, t, i, mem[t][i]);
    var e := mem[t][i];
    if e != 0 {
      var c: nat :| e == c + TABLE && Frame(c) && c in mem && c in at && at[c] == Place(at[t].level + 1, t, i);
      TableEntry(c);
    }
  }

  lemma {:induction false} TableFacts(mem: Mem, at: map<nat, Place>, root: nat, t: nat)
    requires Tree(mem, at, root) && t in mem
    ensures |mem[t]| == ENTRIES && Frame(t) && at[t].level <= 3 && (t == root <==> at[t].level == 0)
    ensures t != root ==> at[t].up in mem && at[at[t].up].level + 1 == at[t].level && at[t].index < ENTRIES
  {
    assert TableOk(mem, at, root, t);
  }

  /** Two walks that meet have gone the same way. */
  lemma {:induction false} WalksApart(mem: Mem, at: map<nat, Place>, root: nat, t: nat, va: nat, t': nat, va': nat,
                                      l: nat)
    requires Tree(mem, at, root) && t in mem && t' in mem && l <= 3 && at[t].level == l == at[t'].level
    requires Walk(mem, t, va, l) != 0 && Walk(mem, t, va, l) == Walk(mem, t', va', l)
    ensures t == t' && forall j | l <= j < 3 :: Index(va, j) == Index(va', j)
    decreases 3 - l
  {
    hide TableOk, Index;
    TableFacts(mem, at, root, t);
    TableFacts(mem, at, root, t');
    if l < 3 {
      EntryCases(mem, at, root, t, Index(va, l));
      EntryCases(mem, at, root, t', Index(va', l));
      WalksApart(mem, at, root, Address(mem[t][Index(va, l)]), va, Address(mem[t'][Index(va', l)]), va', l + 1);
    }
  }

  /** Two addresses share an entry exactly if they lie in the same page. */
  lemma {:induction false} SlotsApart(mem: Mem, at: map<nat, Place>, root: nat, va: nat, va': nat)
    requires Tree(mem, at, root) && root != 0 && Walk(mem, root, va, 0) != 0 && Walk(mem, root, va', 0) != 0
    ensures Walk(mem, root, va, 0) == Walk(mem, root, va', 0) && Index(va, 3) == Index(va', 3) <==>
              PageNo(va) == PageNo(va')
  {
    hide TableOk, Index, PageNo;
    TableFacts(mem, at, root, root);
    IndicesArePageNo(va);
    IndicesArePageNo(va');
    if Walk(mem, root, va, 0) == Walk(mem, root, va', 0) {
      WalksApart(mem, at, root, root, va, root, va', 0);
      assert Index(va, 0) == Index(va', 0) && Index(va, 1) == Index(va', 1) && Index(va, 2) == Index(va', 2);
    }
    if PageNo(va) == PageNo(va') {
      SameDigits(va, va');
      SameWalk(mem, root, va, va', 0);
    }
  }

  /** Equal page numbers have equal indices. */
  lemma {:induction false} SameDigits(va: nat, va': nat)
    requires PageNo(va) == PageNo(va')
    ensures forall j | 0 <= j <= 3 :: Index(va, j) == Index(va', j)
  {
    IndicesArePageNo(va);
    IndicesArePageNo(va');
    hide PageNo, Index;
    Digits(Index(va, 0), Index(va, 1), Index(va, 2), Index(va, 3));
    Digits(Index(va', 0), Index(va', 1), Index(va', 2), Index(va', 3));
  }

  lemma {:induction false} Digits(a: nat, b: nat, c: nat, d: nat)
    requires a < 512 && b < 512 && c < 512 && d < 512
    ensures var n := ((a * 512 + b) * 512 + c) * 512 + d;
            n % 512 == d && n / 512 % 512 == c && n / 512 / 512 % 512 == b && n / 512 / 512 / 512 == a
  {
  }

  lemma {:induction false} SameWalk(mem: Mem, t: nat, va: nat, va': nat, l: nat)
    requires l <= 3 && forall j | 0 <= j <= 3 :: Index(va, j) == Index(va', j)
    ensures Walk(mem, t, va, l) == Walk(mem, t, va', l)
    decreases 3 - l
  {
    hide Index;
    if t in mem && |mem[t]| == ENTRIES && l < 3 && Present(mem[t][Index(va, l)]) {
      SameWalk(mem, Address(mem[t][Index(va, l)]), va, va', l + 1);
    }
  }

  // Changing the tree.

  function EmptyTable(): (t: seq<nat>)
    ensures |t| == ENTRIES && forall i | 0 <= i < ENTRIES :: t[i] == 0
  {
    seq(ENTRIES, i => 0)
  }

  /** The entry for `va` below table `t` of level `l`. */
  ghost function Value(mem: Mem, t: nat, va: nat, l: nat): nat
    requires l <= 3
    decreases 3 - l
  {
    if t !in mem || |mem[t]| != ENTRIES then 0
    else if l == 3 then mem[t][Index(va, 3)]
    else if Present(mem[t][Index(va, l)]) then Value(mem, Address(mem[t][Index(va, l)]), va, l + 1)
    else 0
  }

  lemma {:induction false} ValueIsLookup(mem: Mem, at: map<nat, Place>, root: nat, t: nat, va: nat, l: nat)
    requires Tree(mem, at, root) && t in mem && l <= 3 && at[t].level == l
    ensures Value(mem, t, va, l) == if Walk(mem, t, va, l) in mem then mem[Walk(mem, t, va, l)][Index(va, 3)] else 0
    ensures Walk(mem, t, va, l) in mem ==> |mem[Walk(mem, t, va, l)]| == ENTRIES
    decreases 3 - l
  {
    hide TableOk, Index;
    TableFacts(mem, at, root, t);
    assert 0 !in mem by { NoZero(mem, at, root); }
    if l < 3 {
      EntryCases(mem, at, root, t, Index(va, l));
      if Present(mem[t][Index(va, l)]) {
        ValueIsLookup(mem, at, root, Address(mem[t][Index(va, l)]), va, l + 1);
      }
    }
  }

  /**
   The four look-ups of the hardware: nine bits of the address choose an entry in each table,
   and an entry above the last level is the address of the next table with both low bits set.
   */
  ghost predicate Translates(mem: Mem, t0: nat, t1: nat, t2: nat, t3: nat, va: nat, e: nat)
  {
    && t0 in mem && |mem[t0]| == 512 && mem[t0][va / 0x80_0000_0000 % 512] == t1 + 3
    && t1 in mem && |mem[t1]| == 512 && mem[t1][va / 0x4000_0000 % 512] == t2 + 3
    && t2 in mem && |mem[t2]| == 512 && mem[t2][va / 0x20_0000 % 512] == t3 + 3
    && t3 in mem && |mem[t3]| == 512 && mem[t3][va / 0x1000 % 512] == e
  }

  /** The entry of an address is what the hardware finds. */
  lemma {:induction false} ValueIff(mem: Mem, at: map<nat, Place>, root: nat, va: nat, e: nat)
    requires Tree(mem, at, root) && e != 0
    ensures Value(mem, root, va, 0) == e <==> exists t1, t2, t3: nat :: Translates(mem, root, t1, t2, t3, va, e)
  {
    hide TableOk, Index, Address, Present, Value;
    IndexIs(va);
    ValueStep(mem, root, va, 0);
    if Value(mem, root, va, 0) == e {
      TableFacts(mem, at, root, root);
      EntryCases(mem, at, root, root, Index(va, 0));
      var t1 := Address(mem[root][Index(va, 0)]);
      ValueStep(mem, t1, va, 1);
      TableFacts(mem, at, root, t1);
      EntryCases(mem, at, root, t1, Index(va, 1));
      var t2 := Address(mem[t1][Index(va, 1)]);
      ValueStep(mem, t2, va, 2);
      TableFacts(mem, at, root, t2);
      EntryCases(mem, at, root, t2, Index(va, 2));
      var t3 := Address(mem[t2][Index(va, 2)]);
      ValueStep(mem, t3, va, 3);
      assert Translates(mem, root, t1, t2, t3, va, e);
    }
    forall t1, t2, t3: nat | Translates(mem, root, t1, t2, t3, va, e) ensures Value(mem, root, va, 0) == e {
      TranslatesTo(mem, at, root, t1, t2, t3, va, e);
    }
  }

  lemma {:induction false} TranslatesTo(mem: Mem, at: map<nat, Place>, root: nat, t1: nat, t2: nat, t3: nat, va: nat,
                                        e: nat)
    requires Tree(mem, at, root) && Translates(mem, root, t1, t2, t3, va, e)
    ensures Value(mem, root, va, 0) == e
  {
    hide TableOk, Index, Value, Address;
    IndexIs(va);
    TableFacts(mem, at, root, root);
    TableFacts(mem, at, root, t1);
    TableFacts(mem, at, root, t2);
    TableFacts(mem, at, root, t3);
    TableEntry(t1);
    TableEntry(t2);
    TableEntry(t3);
    ValueStep(mem, root, va, 0);
    ValueStep(mem, t1, va, 1);
    ValueStep(mem, t2, va, 2);
    ValueStep(mem, t3, va, 3);
  }

  lemma {:induction false} ValueStep(mem: Mem, t: nat, va: nat, l: nat)
    requires l <= 3
    ensures Value(mem, t, va, l) ==
            if t !in mem || |mem[t]| != ENTRIES then 0
            else if l == 3 then mem[t][Index(va, 3)]
            else if Present(mem[t][Index(va, l)]) then Value(mem, Address(mem[t][Index(va, l)]), va, l + 1)
            else 0
  {
  }

  /** How many tables the walk for `va` lacks, from table `t` of level `l` on. */
  ghost function Missing(mem: Mem, t: nat, va: nat, l: nat): (n: nat)
    requires l <= 3
    ensures n <= 4 - l
    decreases 3 - l
  {
    if t !in mem || |mem[t]| != ENTRIES then 4 - l
    else if l == 3 then 0
    else if Present(mem[t][Index(va, l)]) then Missing(mem, Address(mem[t][Index(va, l)]), va, l + 1)
    else 3 - l
  }

  lemma {:induction false} MissingFrom(mem: Mem, at: map<nat, Place>, root: nat, t: nat, va: nat, l: nat)
    requires Tree(mem, at, root) && l <= 3 && (t in mem ==> at[t].level == l)
    ensures Missing(mem, t, va, l) == 0 <==> Walk(mem, t, va, l) != 0
    decreases 3 - l
  {
    hide TableOk, Index, Address;
    NoZero(mem, at, root);
    if t in mem {
      TableFacts(mem, at, root, t);
      if l < 3 {
        EntryCases(mem, at, root, t, Index(va, l));
        if Present(mem[t][Index(va, l)]) {
          MissingFrom(mem, at, root, Address(mem[t][Index(va, l)]), va, l + 1);
        }
      }
    }
  }

  lemma {:induction false} EmptyMissing(mem: Mem, c: nat, va: nat, l: nat)
    requires l <= 3 && c in mem && mem[c] == EmptyTable()
    ensures Missing(mem, c, va, l) == 3 - l
  {
    hide Index;
  }

  lemma {:induction false} NoZero(mem: Mem, at: map<nat, Place>, root: nat)
    requires Tree(mem, at, root)
    ensures 0 !in mem
  {
  }

  function Hung(mem: Mem, t: nat, i: nat, c: nat): Mem
    requires t in mem && i < |mem[t]|
  {
    var entries: seq<nat> := mem[t][i := c + TABLE];
    mem[c := EmptyTable()][t := entries]
  }

  /** A fresh table hung at an empty entry. */
  lemma {:induction false} HangTree(mem: Mem, at: map<nat, Place>, root: nat, t: nat, i: nat, c: nat)
    requires Tree(mem, at, root) && t in mem && at[t].level < 3 && i < ENTRIES && |mem[t]| == ENTRIES && mem[t][i] == 0
    requires c !in mem && Frame(c)
    ensures Tree(Hung(mem, t, i, c), at[c := Place(at[t].level + 1, t, i)], root)
  {
    hide TableOk;
    var mem', at' := Hung(mem, t, i, c), at[c := Place(at[t].level + 1, t, i)];
    NoZero(mem, at, root);
    TableFacts(mem, at, root, t);
    forall x <- mem' ensures TableOk(mem', at', root, x) {
      if x == c {
        HangNew(mem', at', root, t, i, c);
      } else {
        assert TableOk(mem, at, root, x);
        HangOld(mem, at, root, t, i, c, x);
      }
    }
  }

  lemma {:induction false} HangNew(mem: Mem, at: map<nat, Place>, root: nat, t: nat, i: nat, c: nat)
    requires c in mem && c in at && mem[c] == EmptyTable() && at[c].level <= 3 && at[c].level > 0 && c != root
             && Frame(c) && at[c] == Place(at[c].level, t, i)
    requires t in mem && t in at && at[t].level + 1 == at[c].level && i < ENTRIES && |mem[t]| == ENTRIES
             && mem[t][i] == c + TABLE
    ensures TableOk(mem, at, root, c)
  {
  }

  lemma {:induction false} HangOld(mem: Mem, at: map<nat, Place>, root: nat, t: nat, i: nat, c: nat, x: nat)
    requires t in mem && t in at && mem.Keys == at.Keys && i < ENTRIES && |mem[t]| == ENTRIES && mem[t][i] == 0
             && at[t].level < 3 && c !in mem && Frame(c)
    requires x in mem && TableOk(mem, at, root, x)
    ensures TableOk(Hung(mem, t, i, c), at[c := Place(at[t].level + 1, t, i)], root, x)
  {
    var mem', at' := Hung(mem, t, i, c), at[c := Place(at[t].level + 1, t, i)];
    if at[x].level < 3 {
      forall j | 0 <= j < ENTRIES ensures EntryOk(mem', at', x, j, mem'[x][j]) {
        assert EntryOk(mem, at, x, j, mem[x][j]);
      }
    }
  }

  /** ... changes no entry of any page. */
  lemma {:induction false} HangSame(mem: Mem, at: map<nat, Place>, root: nat, t: nat, i: nat, c: nat, x: nat, va: nat,
                                    l: nat)
    requires Tree(mem, at, root) && t in mem && at[t].level < 3 && i < ENTRIES && |mem[t]| == ENTRIES && mem[t][i] == 0
    requires c !in mem && Frame(c) && x in mem && l <= 3 && at[x].level == l
    ensures Value(Hung(mem, t, i, c), x, va, l) == Value(mem, x, va, l)
    decreases 3 - l
  {
    hide TableOk, Index;
    var mem' := Hung(mem, t, i, c);
    TableFacts(mem, at, root, x);
    if l < 3 {
      EntryCases(mem, at, root, x, Index(va, l));
      if x == t && Index(va, l) == i {
        TableEntry(c);
        EmptyValue(mem', c, va, l + 1);
      } else if Present(mem[x][Index(va, l)]) {
        HangSame(mem, at, root, t, i, c, Address(mem[x][Index(va, l)]), va, l + 1);
      }
    }
  }

  lemma {:induction false} EmptyValue(mem: Mem, c: nat, va: nat, l: nat)
    requires l <= 3 && c in mem && mem[c] == EmptyTable()
    ensures Value(mem, c, va, l) == 0
  {
    hide Index;
  }

  function Stored(mem: Mem, t: nat, i: nat, v: nat): Mem
    requires t in mem && i < |mem[t]|
  {
    var entries: seq<nat> := mem[t][i := v];
    mem[t := entries]
  }

  /** Storing an entry of the last level keeps the tree. */
  lemma {:induction false} StoreTree(mem: Mem, at: map<nat, Place>, root: nat, t: nat, i: nat, v: nat)
    requires Tree(mem, at, root) && t in mem && at[t].level == 3 && i < ENTRIES && |mem[t]| == ENTRIES
    ensures Tree(Stored(mem, t, i, v), at, root)
  {
    var mem' := Stored(mem, t, i, v);
    forall x <- mem' ensures TableOk(mem', at, root, x) {
      assert TableOk(mem, at, root, x);
      if at[x].level < 3 {
        forall j | 0 <= j < ENTRIES ensures EntryOk(mem', at, x, j, mem'[x][j]) {
          assert EntryOk(mem, at, x, j, mem[x][j]);
        }
      }
    }
  }

  /** ... and changes the entry of exactly the addresses that walk there. */
  lemma {:induction false} StoreValue(mem: Mem, at: map<nat, Place>, root: nat, t: nat, i: nat, v: nat, x: nat,
                                      va: nat, l: nat)
    requires Tree(mem, at, root) && t in mem && at[t].level == 3 && i < ENTRIES && |mem[t]| == ENTRIES
    requires x in mem && l <= 3 && at[x].level == l
    ensures Value(Stored(mem, t, i, v), x, va, l) == if Walk(mem, x, va, l) == t && Index(va, 3) == i then v
              else Value(mem, x, va, l)
    decreases 3 - l
  {
    hide TableOk, Index;
    NoZero(mem, at, root);
    TableFacts(mem, at, root, x);
    if l < 3 {
      EntryCases(mem, at, root, x, Index(va, l));
      if Present(mem[x][Index(va, l)]) {
        StoreValue(mem, at, root, t, i, v, Address(mem[x][Index(va, l)]), va, l + 1);
      }
    }
  }

  /** The first table, of level 0. */
  lemma {:induction false} RootTree(root: nat)
    requires Frame(root)
    ensures Tree(map[root := EmptyTable()], map[root := Place(0, 0, 0)], root)
            && forall va :: Value(map[root := EmptyTable()], root, va, 0) == 0
  {
    var mem, at := map[root := EmptyTable()], map[root := Place(0, 0, 0)];
    assert TableOk(mem, at, root, root);
    forall va ensures Value(mem, root, va, 0) == 0 {
      EmptyValue(mem, root, va, 0);
    }
  }

  // Ancestors, for taking the tree apart.

  /** The table of level `l` above `t`. */
  ghost function Above(at: map<nat, Place>, t: nat, l: nat): nat
    decreases if t in at then at[t].level else 0
  {
    if t in at && at[t].level > l && at[t].up in at && at[at[t].up].level < at[t].level then Above(at, at[t].up, l)
        else t
  }

  lemma {:induction false} AboveFacts(mem: Mem, at: map<nat, Place>, root: nat, x: nat, l: nat)
    requires Tree(mem, at, root) && x in mem && l <= at[x].level
    ensures Above(at, x, l) in mem && at[Above(at, x, l)].level == l
    ensures l < at[x].level ==> Above(at, x, l + 1) in at && at[Above(at, x, l + 1)].up == Above(at, x, l)
    decreases at[x].level
  {
    hide TableOk;
    TableFacts(mem, at, root, x);
    if l < at[x].level {
      AboveFacts(mem, at, root, at[x].up, l);
    }
  }

  /** The entry where a table hangs points to it. */
  lemma {:induction false} HangsThere(mem: Mem, at: map<nat, Place>, root: nat, c: nat)
    requires Tree(mem, at, root) && c in mem && c != root
    ensures at[c].up in mem && |mem[at[c].up]| == ENTRIES && at[c].index < ENTRIES
            && mem[at[c].up][at[c].index] == c + TABLE && Address(c + TABLE) == c && Present(c + TABLE)
  {
    assert TableOk(mem, at, root, c);
    TableEntry(c);
  }

  /** The tables strictly below `t` (of level `l`) that hang under its first `i` entries. */
  ghost function Under(at: map<nat, Place>, t: nat, l: nat, i: nat): set<nat>
  {
    set x | x in at && at[x].level > l && Above(at, x, l) == t && Above(at, x, l + 1) in at
      && at[Above(at, x, l + 1)].index < i
  }

  /** A table and everything below it. */
  ghost function Whole(at: map<nat, Place>, t: nat, l: nat): set<nat>
  {
    set x | x in at && at[x].level >= l && Above(at, x, l) == t
  }

  lemma {:induction false} WholeIs(mem: Mem, at: map<nat, Place>, root: nat, t: nat, l: nat)
    requires Tree(mem, at, root) && t in mem && at[t].level == l
    ensures Whole(at, t, l) == {t} + Under(at, t, l, ENTRIES) && t !in Under(at, t, l, ENTRIES)
  {
    hide TableOk;
    forall x ensures x in Whole(at, t, l) <==> x == t || x in Under(at, t, l, ENTRIES) {
      if x in Whole(at, t, l) {
        AboveFacts(mem, at, root, x, l);
        if at[x].level > l {
          AboveFacts(mem, at, root, x, l + 1);
          TableFacts(mem, at, root, Above(at, x, l + 1));
        }
      }
    }
  }

  lemma {:induction false} UnderStep(mem: Mem, at: map<nat, Place>, root: nat, t: nat, l: nat, i: nat)
    requires Tree(mem, at, root) && t in mem && at[t].level == l < 3 && i < ENTRIES && |mem[t]| == ENTRIES
    ensures Under(at, t, l, i + 1) == Under(at, t, l, i) + if Present(mem[t][i])
              then Whole(at, Address(mem[t][i]), l + 1) else {}
    ensures Present(mem[t][i]) ==> Under(at, t, l, i) !! Whole(at, Address(mem[t][i]), l + 1)
  {
    hide TableOk;
    EntryCases(mem, at, root, t, i);
    var here := if Present(mem[t][i]) then Whole(at, Address(mem[t][i]), l + 1) else {};
    forall x ensures x in Under(at, t, l, i + 1) <==> x in Under(at, t, l, i) || x in here {
      if x in at && at[x].level > l {
        AboveFacts(mem, at, root, x, l);
        AboveFacts(mem, at, root, x, l + 1);
        var c := Above(at, x, l + 1);
        TableFacts(mem, at, root, c);
        HangsThere(mem, at, root, c);
      }
    }
  }

  /** Everything hangs below the root. */
  lemma {:induction false} RootHoldsAll(mem: Mem, at: map<nat, Place>, root: nat)
    requires Tree(mem, at, root) && root in mem
    ensures Whole(at, root, 0) == mem.Keys
  {
    hide TableOk;
    forall x <- mem ensures x in Whole(at, root, 0) {
      AboveFacts(mem, at, root, x, 0);
      TableFacts(mem, at, root, Above(at, x, 0));
    }
  }
}
