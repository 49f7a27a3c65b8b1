/**
 The mask-and-shift updates of mstatus that traps and returns make, on the 64-bit word itself, and what
 they do to each field.
 */
module StatusBits {
  /** Two-level interrupt stack, previous privileges, MPRV, and everything else in the word. */
  datatype Status = Status(sie: bool, mie: bool, spie: bool, mpie: bool, spp: nat, bit9: bool, mpp: nat, mprv: bool,
                           rest: bv64)

  function Field2(x: bv64): (n: nat)
    ensures n <= 3
  {
    if x == 0 then 0 else if x == 1 then 1 else if x == 2 then 2 else 3
  }

  function Bits(ms: bv64): Status
  {
    Status(ms & 0x2 != 0, ms & 0x8 != 0, ms & 0x20 != 0, ms & 0x80 != 0,
           if ms & 0x100 != 0 then 1 else 0, ms & 0x200 != 0,
           Field2((ms >> 11) & 3), ms & 0x2_0000 != 0, ms & 0xFFFF_FFFF_FFFD_E455)
  }

  /** A privilege as the two bits that hold it. */
  function PrivBits(p: nat): (x: bv64)
    ensures x <= 3 && (p <= 3 ==> Field2(x) == p) && (p <= 1 ==> x <= 1)
  {
    if p == 0 then 0 else if p == 1 then 1 else if p == 2 then 2 else 3
  }

  /** The fields of a word are all of it. */
  lemma BitsTellAll(v: bv64, w: bv64)
    requires Bits(v) == Bits(w)
    ensures v == w
  {
  }

  /** The word with these fields. */
  ghost function Word(st: Status): bv64
  {
    if exists w: bv64 :: Bits(w) == st then var w: bv64 :| Bits(w) == st; w else 0
  }

  lemma WordOfBits(ms: bv64)
    ensures Word(Bits(ms)) == ms
  {
    BitsTellAll(Word(Bits(ms)), ms);
  }

  // ---------- on the word ----------

  /** create_exception, trap to S mode */
  function SEntryWord(ms: bv64, priv: bv64): bv64
  {
    var m1 := (ms & !(3 << 8)) | (priv << 8);
    var m2 := (m1 & !(1 << 5)) | ((m1 & (1 << 1)) << 4);
    m2 & !(1 << 1)
  }

  /** create_exception, trap to M mode */
  function MEntryWord(ms: bv64, priv: bv64): bv64
  {
    var m1 := (ms & !(3 << 11)) | (priv << 11);
    var m2 := (m1 & !(1 << 7)) | ((m1 & (1 << 3)) << 4);
    m2 & !(1 << 3)
  }

  /** MRET up to the test of the new privilege */
  function MExitWord(ms: bv64): bv64
  {
    var m1 := (ms & !(1 << 3)) | ((ms & (1 << 7)) >> 4);
    m1 | (1 << 7)
  }

  /** SRET up to the test of the new privilege */
  function SExitWord(ms: bv64): bv64
  {
    var m1 := (ms & !(1 << 1)) | ((ms & (1 << 5)) >> 4);
    m1 | (1 << 5)
  }

  // ---------- on the fields ----------

  function SEntry(st: Status, priv: nat): Status
  {
    st.(spie := st.sie, sie := false, spp := priv, bit9 := false)
  }

  function MEntry(st: Status, priv: nat): Status
  {
    st.(mpie := st.mie, mie := false, mpp := priv)
  }

  function MExit(st: Status): Status
  {
    st.(mie := st.mpie, mpie := true)
  }

  function SExit(st: Status): Status
  {
    st.(sie := st.spie, spie := true)
  }

  lemma SEntryBits(ms: bv64, priv: bv64)
    requires priv <= 1
    ensures Bits(SEntryWord(ms, priv)) == SEntry(Bits(ms), Field2(priv))
  {
  }

  lemma MEntryBits(ms: bv64, priv: bv64)
    requires priv <= 3
    ensures Bits(MEntryWord(ms, priv)) == MEntry(Bits(ms), Field2(priv))
  {
  }

  lemma MExitBits(ms: bv64)
    ensures Bits(MExitWord(ms)) == MExit(Bits(ms))
    ensures Bits(MExitWord(ms) & !(3 << 11)) == MExit(Bits(ms)).(mpp := 0)
    ensures Bits(MExitWord(ms) & !(3 << 11) & !(1 << 17)) == MExit(Bits(ms)).(mpp := 0, mprv := false)
  {
  }

  lemma SExitBits(ms: bv64)
    ensures Bits(SExitWord(ms)) == SExit(Bits(ms))
    ensures Bits(SExitWord(ms) & !(1 << 8)) == SExit(Bits(ms)).(spp := 0)
    ensures Bits(SExitWord(ms) & !(1 << 8) & !(1 << 17)) == SExit(Bits(ms)).(spp := 0, mprv := false)
  {
  }

  /** MRET's test of MPP and the bits it clears. */
  function MReturned(w: bv64): bv64
  {
    if w & 0x1800 == 0x1800 then w & !(3 << 11) else w & !(3 << 11) & !(1 << 17)
  }

  lemma MReturnedBits(ms: bv64)
    ensures var st := MExit(Bits(ms));
            && Bits(MReturned(MExitWord(ms))) == st.(mpp := 0, mprv := st.mprv && st.mpp == 3)
            && Bits(MExitWord(ms)).mpp == st.mpp
  {
    MExitBits(ms);
  }

  /** The mstatus side of MRET: the new word and the new privilege. */
  method MretWord(ms: bv64) returns (w: bv64, priv: nat)
    ensures var st := MExit(Bits(ms));
            Bits(w) == st.(mpp := 0, mprv := st.mprv && st.mpp == 3) && priv == st.mpp
  {
    MReturnedBits(ms);
    w := MExitWord(ms);
    priv := Field2((w >> 11) & 3);
    w := MReturned(w);
  }

  /** The mstatus side of SRET. */
  method SretWord(ms: bv64) returns (w: bv64, priv: nat)
    ensures var st := SExit(Bits(ms));
            Bits(w) == st.(spp := 0, mprv := st.mprv && st.spp == 3) && priv == st.spp
  {
    SExitBits(ms);
    w := SExitWord(ms);
    priv := if w & 0x100 != 0 then 1 else 0;
    w := w & !(1 << 8);
    if priv != 3 { w := w & !(1 << 17); }
  }
}
