/** The TLB as a value: hashing, insertion with eviction, and the descending search of tlb_find. */
module Tlb {
  import opened Base

  const TLB_SIZE := 64

  /** The permission bits of a leaf PTE. */
  datatype Perms = Perms(r: bool, w: bool, x: bool)

  const NO_PERMS := Perms(false, false, false)

  datatype Entry = Entry(virtPage: U64, phyPage: U64, pteAddr: U64, size: nat, perms: Perms, user: bool)

  datatype Cache = Cache(maxSize: nat, count: seq<Byte>, slots: seq<Entry>)

  const EMPTY_ENTRY := Entry(0, 0, 0, 0, NO_PERMS, false)

  /** tlb_clear */
  function Empty(): (t: Cache)
    ensures Shape(t)
  {
    Cache(0, seq(6, _ => 0), seq(TLB_SIZE, _ => EMPTY_ENTRY))
  }

  predicate Shape(t: Cache)
  {
    && |t.count| == 6 && |t.slots| == TLB_SIZE && t.maxSize < 6
    && forall j :: 0 <= j < TLB_SIZE ==> t.slots[j].size < 6
  }

  predicate Live(e: Entry)
  {
    e.perms != NO_PERMS
  }

  /** 2^(12 + 9 * i): the bytes covered by a leaf at level i. */
  function PageSize(i: nat): (p: int)
    ensures p >= 0x1000
  {
    if i == 0 then 0x1000 else 512 * PageSize(i - 1)
  }

  lemma RemainderBelow(x: nat, d: int)
    requires d > 0
    ensures 0 <= x % d <= x
  {
    var q := x / d;
    assert x == d * q + x % d;
    assert q >= 0 ==> d * q >= 0;
  }

  function PageBase(va: nat, i: nat): (b: nat)
    ensures b <= va
  {
    RemainderBelow(va, PageSize(i));
    va - va % PageSize(i)
  }

  /** (va ^ vb) < 2^(12 + 9 * i): the two agree on every bit above the page offset. */
  predicate SamePage(va: nat, vb: nat, i: nat)
  {
    va / PageSize(i) == vb / PageSize(i)
  }

  function Hash(a: int): (h: nat)
    ensures h < TLB_SIZE
  {
    Wrap(106039 * a) / 0x1_0000 % TLB_SIZE
  }

  // ---------- insertion ----------

  /** The last i below n with a nonzero count, 0 if there is none. */
  function Highest(count: seq<Byte>, n: nat): nat
    requires n <= |count|
  {
    if n == 0 then 0 else if count[n - 1] > 0 then n - 1 else Highest(count, n - 1)
  }

  /** tlb_add; size_count is a uint8_t. */
  function Add(t: Cache, e: Entry): (t': Cache)
    requires Shape(t) && e.size < 6
    ensures Shape(t')
  {
    var c := Recount(t.count, t.slots[Hash(e.virtPage)], e);
    HighestBound(c, 6);
    Cache(Highest(c, 6), c, t.slots[Hash(e.virtPage) := e])
  }

  /** One fewer entry of the size of a live old_, one more of the size of e. */
  function Recount(count: seq<Byte>, old_: Entry, e: Entry): (c: seq<Byte>)
    requires |count| == 6 && e.size < 6 && old_.size < 6
    ensures |c| == 6
  {
    var c1 := if Live(old_) then count[old_.size := Wrap8(count[old_.size] as int - 1)] else count;
    c1[e.size := Wrap8(c1[e.size] as int + 1)]
  }

  lemma {:induction false} HighestBound(count: seq<Byte>, n: nat)
    requires 0 < n <= |count|
    ensures Highest(count, n) < n
  {
    if n > 1 {
      HighestBound(count, n - 1);
    }
  }

  // ---------- search ----------

  /** Access kinds: write is iswrite, load is mem_status on entry. */
  datatype Access = Access(write: bool, load: bool)

  /** Does the entry's permission mask contain the bit this access asks for? */
  predicate Permits(e: Entry, acc: Access)
  {
    if acc.write then e.perms.w else if acc.load then e.perms.r else e.perms.x
  }

  /** The privilege test of tlb_find. */
  predicate UserOk(e: Entry, priv: int, sum: bool)
  {
    !(priv == 0 && !e.user) && !(priv >= 1 && e.user && !sum)
  }

  predicate Usable(e: Entry, va: nat, acc: Access, priv: int, sum: bool)
  {
    Live(e) && SamePage(va, e.virtPage, e.size) && Permits(e, acc) && UserOk(e, priv, sum)
  }

  /** The slot examined for pages of size i. */
  function Probe(t: Cache, va: nat, i: nat): Entry
    requires Shape(t)
  {
    t.slots[Hash(PageBase(va, i))]
  }

  /** The entry tlb_find settles on, searching sizes i, i - 1, ..., 0. */
  function Find(t: Cache, va: nat, acc: Access, priv: int, sum: bool, i: int): (r: Option<Entry>)
    requires Shape(t) && i < 6
    ensures r.Some? ==> r.value in t.slots && Usable(r.value, va, acc, priv, sum)
    decreases i + 1
  {
    if i < 0 then None
    else
      var e := Probe(t, va, i);
      if e.size == i && Usable(e, va, acc, priv, sum) then Some(e)
      else Find(t, va, acc, priv, sum, i - 1)
  }
}
