// The hash chains of deflate (dep/zlib/deflate.c): head[] and the circular prev[] as a correct
// index into the data, through insertions, slides of the window and new input.
// Positions are absolute: window index i stands for byte base + i of all input so far.
module DeflateChains {
  import opened ByteType
  import opened Bits
  import opened DeflateHash

  // ----- Positions modulo the window size -----

  function Slot(a: int, w: nat): (j: int)
    requires w > 0
    ensures 0 <= j < w
  {
    a % w
  }

  lemma SlotShift(base: int, i: int, w: nat)
    requires w > 0 && Slot(base, w) == 0
    ensures Slot(base + i, w) == Slot(i, w) && Slot(base + w, w) == 0
  {
    var k := base / w;
    assert base == k * w;
    ModShift(i, k, w);
    Distribute(k, 1, w);
    ModUnique(base + w, k + 1, 0, w);
  }

  lemma Distribute(a: int, b: int, c: int)
    ensures (a + b) * c == a * c + b * c
  {
  }

  lemma SlotUnique(a: int, b: int, w: nat)
    requires w > 0 && Slot(a, w) == Slot(b, w) && a <= b < a + w
    ensures a == b
  {
    var p, q := a / w, b / w;
    assert a == p * w + a % w && b == q * w + b % w;
    Distribute(q, -p, w);
    MulAtLeast(q - p, w);
  }

  // ----- The chains -----

  // Everything the chains refer to. owner[j] is the last position inserted into slot j, or -1;
  // last is the last position inserted anywhere.
  datatype Index = Index(data: seq<Byte>, base: nat, w: nat, bits: nat, shift: nat,
                         head: seq<int>, prev: seq<int>, owner: seq<int>, last: int)

  function HashAt(x: Index, a: int): nat
    requires 0 <= a && a + 2 < |x.data|
  {
    Hash(x.data[a], x.data[a + 1], x.data[a + 2], x.bits, x.shift)
  }

  // Position a has been inserted.
  predicate Known(x: Index, a: int) {
    && 0 <= a && a + 2 < |x.data| && 0 < x.w == |x.owner|
    && x.owner[Slot(a, x.w)] >= a
  }

  predicate HeadOk(x: Index, h: int) {
    && 0 <= h < |x.head| && 0 <= x.head[h]
    && (x.head[h] == 0 || (Known(x, x.base + x.head[h]) && HashAt(x, x.base + x.head[h]) == h
      && x.base + x.head[h] <= x.last))
  }

  predicate SlotOk(x: Index, j: int) {
    && 0 <= j < x.w == |x.owner| == |x.prev|
    && (x.owner[j] == -1 || Owned(x, j))
  }

  // A slot leads to an earlier position with the same hash.
  predicate Owned(x: Index, j: int)
    requires 0 <= j < x.w == |x.owner| == |x.prev|
  {
    && 0 <= x.owner[j] <= x.last && Slot(x.owner[j], x.w) == j && x.owner[j] + 2 < |x.data| && 0 <= x.prev[j]
    && (x.prev[j] == 0 || Leads(x, x.base + x.prev[j], x.owner[j]))
  }

  predicate Leads(x: Index, a: int, b: int) {
    Known(x, a) && a < b && 0 <= b && b + 2 < |x.data| && HashAt(x, a) == HashAt(x, b)
  }

  // Position b has been inserted, and no later one has taken its slot.
  predicate Live(x: Index, b: int) {
    0 <= b && 0 < x.w == |x.owner| && x.owner[Slot(b, x.w)] == b
  }

  // No live position with hash h lies between an entry, or the window's start if that is NIL, and end.
  ghost predicate NoneBetween(x: Index, entry: int, end: int, h: int) {
    forall b :: Live(x, b) && x.base + entry < b < end && b + 2 < |x.data| ==> HashAt(x, b) != h
  }

  ghost predicate SlotDense(x: Index, j: int)
    requires 0 <= j < x.w == |x.owner| == |x.prev|
  {
    0 <= x.owner[j] && x.owner[j] + 2 < |x.data| ==> NoneBetween(x, x.prev[j], x.owner[j], HashAt(x, x.owner[j]))
  }

  // The chains skip nothing.
  ghost predicate Dense(x: Index) {
    && 0 < x.w == |x.owner| == |x.prev|
    && (forall h :: 0 <= h < |x.head| ==> NoneBetween(x, x.head[h], x.last + 1, h))
    && (forall j :: 0 <= j < x.w ==> SlotDense(x, j))
  }

  // A correct index: what it leads to is right, and it leads to everything.
  ghost predicate Chains(x: Index) {
    Sound(x) && Dense(x)
  }

  ghost predicate Sound(x: Index) {
    && HashSizes(x.bits, x.shift) && 0 < x.w == |x.owner| == |x.prev| && |x.head| == Pow2(x.bits)
    && Slot(x.base, x.w) == 0 && -1 <= x.last
    && (forall h :: 0 <= h < |x.head| ==> HeadOk(x, h))
    && (forall j :: 0 <= j < x.w ==> SlotOk(x, j))
  }

  // Nothing inserted: prev[] may hold anything.
  lemma ChainsStart(x: Index)
    requires HashSizes(x.bits, x.shift) && 0 < x.w == |x.owner| == |x.prev| && |x.head| == Pow2(x.bits)
    requires Slot(x.base, x.w) == 0 && x.last == -1
    requires (forall h :: 0 <= h < |x.head| ==> x.head[h] == 0) && forall j :: 0 <= j < x.w ==> x.owner[j] == -1
    ensures Chains(x)
  {
  }

  // ----- What has been inserted -----

  // The positions inserted so far are those of known.
  ghost predicate Exactly(x: Index, known: set<int>) {
    && (forall a :: a in known ==> Known(x, a))
    && forall j :: 0 <= j < |x.owner| && x.owner[j] >= 0 ==> x.owner[j] in known
  }

  lemma ExactlyMore(x: Index, y: Index, known: set<int>)
    requires Exactly(x, known) && y.w == x.w && y.owner == x.owner && x.data <= y.data
    ensures Exactly(y, known)
  {
    hide Slot;
    forall a | a in known ensures Known(y, a) { assert Known(x, a); }
  }

  lemma ExactlyInsert(x: Index, str: int, h: int, known: set<int>)
    requires Chains(x) && 0 <= str && x.last < x.base + str && x.base + str + 2 < |x.data| && 0 <= h < |x.head|
    requires Exactly(x, known)
    ensures 0 < x.w == |x.owner| == |x.prev| && Exactly(Inserted(x, str, h), known + {x.base + str})
  {
    hide Hash, Slot, Pow2, HeadOk, SlotOk, Dense;
    var y := Inserted(x, str, h);
    OwnerGrows(x, str, h);
    forall a | a in known ensures Known(y, a) { assert Known(x, a); }
  }

  lemma InsertedKnown(x: Index, str: int, h: int)
    requires 0 < x.w == |x.owner| == |x.prev| && 0 <= h < |x.head| && 0 <= str && x.base + str + 2 < |x.data|
    ensures Known(Inserted(x, str, h), x.base + str)
  {
  }

  // A position inserted less than a window back is live.
  lemma KnownLive(x: Index, b: int)
    requires Chains(x) && Known(x, b)
    ensures b <= x.last && (x.last < b + x.w ==> Live(x, b))
  {
    hide HeadOk, Dense;
    var j := Slot(b, x.w);
    assert SlotOk(x, j);
    if x.last < b + x.w { SlotUnique(b, x.owner[j], x.w); }
  }

  lemma LiveKnown(x: Index, known: set<int>, b: int)
    requires Live(x, b) && Exactly(x, known)
    ensures b in known && Known(x, b)
  {
    assert x.owner[Slot(b, x.w)] in known;
  }

  // ----- INSERT_STRING -----

  function Inserted(x: Index, str: int, h: int): Index
    requires 0 < x.w == |x.owner| == |x.prev| && 0 <= h < |x.head|
  {
    x.(prev := x.prev[Slot(str, x.w) := x.head[h]], head := x.head[h := str],
       owner := x.owner[Slot(x.base + str, x.w) := x.base + str], last := x.base + str)
  }

  lemma KnownMore(x: Index, y: Index, a: int)
    requires Known(x, a) && y.w == x.w && |y.owner| == |x.owner| && x.data <= y.data && y.bits == x.bits
      && y.shift == x.shift
    requires forall j :: 0 <= j < x.w ==> x.owner[j] <= y.owner[j]
    ensures Known(y, a) && HashAt(y, a) == HashAt(x, a)
  {
  }

  lemma LeadsMore(x: Index, y: Index, a: int, b: int)
    requires Leads(x, a, b) && y.w == x.w && |y.owner| == |x.owner| && x.data <= y.data && y.bits == x.bits
      && y.shift == x.shift
    requires forall j :: 0 <= j < x.w ==> x.owner[j] <= y.owner[j]
    ensures Leads(y, a, b)
  {
    hide Slot, Hash;
    KnownMore(x, y, a);
  }

  lemma InsertHead(x: Index, str: int, h: int, i: int)
    requires Chains(x) && 0 <= str && x.last < x.base + str && x.base + str + 2 < |x.data|
    requires h == HashAt(x, x.base + str) && h < |x.head| && 0 <= i < |x.head|
    ensures HeadOk(Inserted(x, str, h), i)
  {
    hide Hash, Slot, Pow2;
    var y := Inserted(x, str, h);
    assert HeadOk(x, i);
    OwnerGrows(x, str, h);
    if i != h && x.head[i] != 0 { KnownMore(x, y, x.base + x.head[i]); }
  }

  lemma OwnerGrows(x: Index, str: int, h: int)
    requires Chains(x) && 0 <= h < |x.head| && 0 <= str && x.last < x.base + str
    ensures var y := Inserted(x, str, h);
      |y.owner| == |x.owner| && forall j :: 0 <= j < x.w ==> x.owner[j] <= y.owner[j]
  {
    hide Slot, Pow2, HeadOk;
    forall j | 0 <= j < x.w ensures x.owner[j] <= x.last { assert SlotOk(x, j); }
  }

  lemma InsertSlot(x: Index, str: int, h: int, j: int)
    requires Chains(x) && 0 <= str && x.last < x.base + str && x.base + str + 2 < |x.data|
    requires h == HashAt(x, x.base + str) && h < |x.head| && 0 <= j < x.w
    ensures SlotOk(Inserted(x, str, h), j)
  {
    hide Hash, Slot, Pow2;
    var y := Inserted(x, str, h);
    OwnerGrows(x, str, h);
    SlotShift(x.base, str, x.w);
    assert SlotOk(x, j) && HeadOk(x, h);
    if j == Slot(str, x.w) {
      if x.head[h] != 0 { KnownMore(x, y, x.base + x.head[h]); }
    } else if x.owner[j] != -1 && x.prev[j] != 0 {
      LeadsMore(x, y, x.base + x.prev[j], x.owner[j]);
    }
  }

  // A live position stays live unless the new one takes its slot.
  lemma LiveBefore(x: Index, str: int, h: int, b: int)
    requires Sound(x) && 0 <= str && x.last < x.base + str && 0 <= h < |x.head| && Live(Inserted(x, str, h), b)
    ensures b == x.base + str || (Live(x, b) && b <= x.last && b + 2 < |x.data|)
  {
    hide Pow2, HeadOk;
    if b != x.base + str {
      assert Slot(b, x.w) != Slot(x.base + str, x.w);
      assert SlotOk(x, Slot(b, x.w));
    }
  }

  lemma InsertDense(x: Index, str: int, h: int)
    requires Chains(x) && 0 <= str && x.last < x.base + str && x.base + str + 2 < |x.data|
    requires h == HashAt(x, x.base + str) && h < |x.head|
    ensures Dense(Inserted(x, str, h))
  {
    hide HeadOk, Live, Sound, Hash, Slot, Pow2;
    var y := Inserted(x, str, h);
    forall b | Live(y, b) ensures b == x.base + str || (Live(x, b) && b <= x.last && b + 2 < |x.data|) {
      LiveBefore(x, str, h, b);
    }
    forall i | 0 <= i < |y.head| ensures NoneBetween(y, y.head[i], y.last + 1, i) {
      assert NoneBetween(x, x.head[i], x.last + 1, i);
    }
    SoundSlot(x);
    SlotShift(x.base, str, x.w);
    forall j | 0 <= j < y.w ensures SlotDense(y, j) {
      assert SlotDense(x, j) && NoneBetween(x, x.head[h], x.last + 1, h);
      OwnerBound(x, j);
    }
  }

  lemma SoundSlot(x: Index)
    requires Sound(x)
    ensures Slot(x.base, x.w) == 0
  {
  }

  lemma OwnerBound(x: Index, j: int)
    requires Sound(x) && 0 <= j < x.w
    ensures x.owner[j] <= x.last && (x.owner[j] >= 0 ==> x.owner[j] + 2 < |x.data|)
  {
    hide HeadOk, Pow2;
    assert SlotOk(x, j);
  }

  // Inserting a position after all others keeps the chains.
  lemma InsertKeeps(x: Index, str: int, h: int)
    requires Chains(x) && 0 <= str && x.last < x.base + str && x.base + str + 2 < |x.data|
    requires h == HashAt(x, x.base + str) && h < |x.head|
    ensures Chains(Inserted(x, str, h)) && (str > 0 ==> Known(Inserted(x, str, h), x.base + str))
  {
    hide HeadOk, SlotOk, Hash, Slot, Pow2, Dense;
    var y := Inserted(x, str, h);
    InsertDense(x, str, h);
    forall i | 0 <= i < |y.head| ensures HeadOk(y, i) { InsertHead(x, str, h, i); }
    forall j | 0 <= j < y.w ensures SlotOk(y, j) { InsertSlot(x, str, h, j); }
    SlotShift(x.base, str, x.w);
  }

  // The head found while inserting is an earlier position with the same hash.
  lemma InsertFinds(x: Index, str: int, h: int)
    requires Chains(x) && 0 <= str && x.last < x.base + str && x.base + str + 2 < |x.data|
    requires h == HashAt(x, x.base + str) && h < |x.head|
    ensures x.head[h] >= 0 && (x.head[h] != 0 ==> Leads(Inserted(x, str, h), x.base + x.head[h], x.base + str))
  {
    hide Hash, Slot, Pow2;
    assert HeadOk(x, h);
    OwnerGrows(x, str, h);
    if x.head[h] != 0 { KnownMore(x, Inserted(x, str, h), x.base + x.head[h]); }
  }

  // ----- slide_hash -----

  function Less(m: int, w: nat): int {
    if m >= w then m - w else 0
  }

  // All entries a window lower, the data where it is.
  ghost predicate SlidBy(x: Index, y: Index) {
    && y == x.(base := x.base + x.w, head := y.head, prev := y.prev)
    && |y.head| == |x.head| && |y.prev| == |x.prev|
    && (forall h :: 0 <= h < |x.head| ==> y.head[h] == Less(x.head[h], x.w))
    && (forall j :: 0 <= j < |x.prev| ==> y.prev[j] == Less(x.prev[j], x.w))
  }

  lemma SlideKeeps(x: Index, y: Index)
    requires Chains(x) && SlidBy(x, y)
    ensures Chains(y)
  {
    hide Hash, Slot, Pow2, Known, Dense;
    SlotShift(x.base, 0, x.w);
    SlideDense(x, y);
    forall h | 0 <= h < |y.head| ensures HeadOk(y, h) { SlideHead(x, y, h); }
    forall j | 0 <= j < y.w ensures SlotOk(y, j) { SlideSlot(x, y, j); }
  }

  lemma SlideDense(x: Index, y: Index)
    requires Dense(x) && SlidBy(x, y)
    ensures Dense(y)
  {
    hide Hash, Slot;
    forall h | 0 <= h < |y.head| ensures NoneBetween(y, y.head[h], y.last + 1, h) {
      assert NoneBetween(x, x.head[h], x.last + 1, h);
      SlideNone(x, y, x.head[h], x.last + 1, h);
    }
    forall j | 0 <= j < y.w ensures SlotDense(y, j) {
      assert SlotDense(x, j);
      var a := x.owner[j];
      if 0 <= a && a + 2 < |x.data| { SlideNone(x, y, x.prev[j], a, HashAt(x, a)); }
    }
  }

  lemma SlideNone(x: Index, y: Index, e: int, end: int, h: int)
    requires NoneBetween(x, e, end, h) && SlidBy(x, y)
    ensures NoneBetween(y, Less(e, x.w), end, h)
  {
    hide Hash, Slot;
    forall b | Live(y, b) && y.base + Less(e, x.w) < b < end && b + 2 < |y.data| ensures HashAt(y, b) != h {
      assert Live(x, b);
    }
  }

  lemma SameKnown(x: Index, y: Index, a: int)
    requires y.data == x.data && y.w == x.w && y.owner == x.owner && y.bits == x.bits && y.shift == x.shift
    ensures Known(x, a) <==> Known(y, a)
    ensures 0 <= a && a + 2 < |x.data| ==> HashAt(x, a) == HashAt(y, a)
  {
  }

  lemma SlideHead(x: Index, y: Index, h: int)
    requires Chains(x) && SlidBy(x, y) && 0 <= h < |y.head|
    ensures HeadOk(y, h)
  {
    hide Hash, Slot, Pow2;
    assert HeadOk(x, h);
    SameKnown(x, y, x.base + x.head[h]);
  }

  lemma SlideSlot(x: Index, y: Index, j: int)
    requires Chains(x) && SlidBy(x, y) && 0 <= j < y.w
    ensures SlotOk(y, j)
  {
    hide Hash, Slot, Pow2;
    assert SlotOk(x, j);
    if x.owner[j] != -1 {
      SameKnown(x, y, x.base + x.prev[j]);
      SameKnown(x, y, x.owner[j]);
    }
  }

  // ----- read_buf -----

  lemma GrowKeeps(x: Index, more: seq<Byte>)
    requires Chains(x)
    ensures Chains(x.(data := x.data + more))
  {
    hide Hash, Slot, Pow2, Known, HashAt, Dense;
    var y := x.(data := x.data + more);
    GrowDense(x, more);
    forall h | 0 <= h < |y.head| ensures HeadOk(y, h) {
      assert HeadOk(x, h);
      if x.head[h] != 0 { KnownMore(x, y, x.base + x.head[h]); }
    }
    forall j | 0 <= j < y.w ensures SlotOk(y, j) {
      assert SlotOk(x, j);
      if x.owner[j] != -1 && x.prev[j] != 0 { LeadsMore(x, y, x.base + x.prev[j], x.owner[j]); }
    }
  }

  lemma GrowDense(x: Index, more: seq<Byte>)
    requires Chains(x)
    ensures Dense(x.(data := x.data + more))
  {
    hide Hash, Slot, Pow2, Sound;
    var y := x.(data := x.data + more);
    forall h | 0 <= h < |y.head| ensures NoneBetween(y, y.head[h], y.last + 1, h) {
      assert NoneBetween(x, x.head[h], x.last + 1, h);
      GrowNone(x, more, x.head[h], x.last + 1, h);
    }
    forall j | 0 <= j < y.w ensures SlotDense(y, j) {
      assert SlotDense(x, j);
      OwnerBound(x, j);
      if x.owner[j] >= 0 { GrowNone(x, more, x.prev[j], x.owner[j], HashAt(x, x.owner[j])); }
    }
  }

  lemma GrowNone(x: Index, more: seq<Byte>, e: int, end: int, h: int)
    requires Sound(x) && NoneBetween(x, e, end, h)
    ensures NoneBetween(x.(data := x.data + more), e, end, h)
  {
    hide Hash, Slot, Pow2, Sound;
    var y := x.(data := x.data + more);
    forall b | Live(y, b) && y.base + e < b < end && b + 2 < |y.data| ensures HashAt(y, b) != h {
      assert Live(x, b);
      SoundSizes(x);
      OwnerBound(x, Slot(b, x.w));
    }
  }

  lemma SoundSizes(x: Index)
    requires Sound(x)
    ensures 0 < x.w == |x.owner| == |x.prev|
  {
  }

  // ----- Following a chain -----

  // From window index m the chain comes to position b within k links, none of them to floor or below.
  predicate Reaches(x: Index, m: int, b: int, k: nat, floor: nat)
    requires 0 < x.w == |x.prev|
    decreases k
  {
    x.base + m == b || (k > 0 && x.prev[Slot(m, x.w)] > floor && Reaches(x, x.prev[Slot(m, x.w)], b, k - 1, floor))
  }

  function HashOf(data: seq<Byte>, a: int, bits: nat, shift: nat): nat
    requires 0 <= a && a + 2 < |data|
  {
    Hash(data[a], data[a + 1], data[a + 2], bits, shift)
  }

  // The data and what of it is in the index.
  datatype Text = Text(data: seq<Byte>, ends: set<int>, known: set<int>, last: int)

  // Position a is in the index with hash h.
  ghost predicate Hashed(t: Text, bits: nat, shift: nat, a: int, h: nat) {
    a in t.known && 0 <= a && a + 2 < |t.data| && HashOf(t.data, a, bits, shift) == h
  }

  // How many positions between b and e are in the index with hash h.
  ghost function Alike(t: Text, bits: nat, shift: nat, h: nat, b: int, e: int): nat
    decreases e - b
  {
    if e <= b + 1 then 0
    else Alike(t, bits, shift, h, b, e - 1) + (if Hashed(t, bits, shift, e - 1, h) then 1 else 0)
  }

  // With none of them from e to m, e is the only one more.
  lemma {:induction false} AlikeLink(t: Text, bits: nat, shift: nat, h: nat, b: int, e: int, m: int)
    requires b < e < m && Hashed(t, bits, shift, e, h)
    requires forall a :: e < a < m ==> !Hashed(t, bits, shift, a, h)
    ensures Alike(t, bits, shift, h, b, m) == Alike(t, bits, shift, h, b, e) + 1
    decreases m - e
  {
    hide Hashed;
    if e + 1 < m { AlikeLink(t, bits, shift, h, b, e, m - 1); }
  }

  lemma {:induction false} AlikeNone(t: Text, bits: nat, shift: nat, h: nat, b: int, m: int)
    requires forall a :: b < a < m ==> !Hashed(t, bits, shift, a, h)
    ensures Alike(t, bits, shift, h, b, m) == 0
    decreases m - b
  {
    hide Hashed;
    if b + 1 < m { AlikeNone(t, bits, shift, h, b, m - 1); }
  }

  lemma {:induction false} AlikeBound(t: Text, bits: nat, shift: nat, h: nat, b: int, e: int)
    requires b < e
    ensures Alike(t, bits, shift, h, b, e) < e - b
    decreases e - b
  {
    hide Hashed;
    if b + 1 < e { AlikeBound(t, bits, shift, h, b, e - 1); }
  }

  // The text of an index: the same data, and known holds what has been inserted.
  ghost predicate TextOf(x: Index, t: Text) {
    t.data == x.data && t.last == x.last && Exactly(x, t.known)
  }

  // No position of the index between an entry and a later end has the hash.
  lemma NoneHashed(x: Index, t: Text, e: int, m: int, h: nat)
    requires Chains(x) && TextOf(x, t) && NoneBetween(x, e, x.base + m, h) && x.last <= x.base + e + x.w
    ensures forall a :: x.base + e < a < x.base + m ==> !Hashed(t, x.bits, x.shift, a, h)
  {
    hide Chains, Known, Hash;
    forall a | x.base + e < a < x.base + m ensures !Hashed(t, x.bits, x.shift, a, h) {
      if a in t.known {
        assert Known(x, a);
        KnownLive(x, a);
      }
    }
  }

  // What a chain comes to is an earlier position of the index with the same hash, as many links away as
  // there are such positions on the way; and the chain comes to each of them, if it is above the floor.
  ghost predicate OnChain(x: Index, t: Text, m: int, b: int, k: nat, floor: nat)
  {
    && 0 <= x.base + m && x.base + m + 2 < |x.data|
    && Hashed(t, x.bits, x.shift, b, HashAt(x, x.base + m))
    && (b == x.base + m || (x.base + floor < b < x.base + m
      && Alike(t, x.bits, x.shift, HashAt(x, x.base + m), b, x.base + m) < k))
  }

  lemma {:induction false} ChainExactly(x: Index, t: Text, m: int, b: int, k: nat, floor: nat)
    requires Chains(x) && TextOf(x, t) && m > 0 && Known(x, x.base + m) && x.last - x.w < x.base + m
    requires x.last - x.w <= x.base + floor
    ensures 0 < x.w == |x.prev| && (Reaches(x, m, b, k, floor) <==> OnChain(x, t, m, b, k, floor))
    decreases k
  {
    hide Chains, Known, Hash, Slot, TextOf, Alike, NoneBetween;
    ChainsWidth(x);
    KnownHashed(x, t, x.base + m);
    if x.base + m != b {
      var e := NextLink(x, m);
      if e > floor {
        LeadsParts(x, x.base + e, x.base + m);
        NoneHashed(x, t, e, m, HashAt(x, x.base + m));
        KnownHashed(x, t, x.base + e);
        if k > 0 { ChainExactly(x, t, e, b, k - 1, floor); }
        if b < x.base + e { AlikeLink(t, x.bits, x.shift, HashAt(x, x.base + m), b, x.base + e, x.base + m); }
        if b == x.base + e { AlikeNone(t, x.bits, x.shift, HashAt(x, x.base + m), b, x.base + m); }
      } else {
        NoneAbove(x, t, e, m, HashAt(x, x.base + m), floor);
      }
    }
  }

  lemma NoneAbove(x: Index, t: Text, e: int, m: int, h: nat, floor: nat)
    requires Chains(x) && TextOf(x, t) && e <= floor
    requires NoneBetween(x, e, x.base + m, h) && x.last - x.w <= x.base + floor
    ensures forall b :: x.base + floor < b < x.base + m ==> !Hashed(t, x.bits, x.shift, b, h)
  {
    hide Chains, Known, Hash, Hashed;
    assert NoneBetween(x, floor, x.base + m, h);
    NoneHashed(x, t, floor, m, h);
  }

  lemma ChainsWidth(x: Index)
    requires Chains(x)
    ensures 0 < x.w == |x.prev| == |x.owner|
  {
  }

  lemma LeadsParts(x: Index, a: int, b: int)
    requires Leads(x, a, b)
    ensures Known(x, a) && 0 <= a < b && b + 2 < |x.data| && HashAt(x, a) == HashAt(x, b)
  {
    hide Hash, Slot;
  }

  lemma KnownHashed(x: Index, t: Text, a: int)
    requires Chains(x) && TextOf(x, t) && Known(x, a) && x.last - x.w < a
    ensures 0 <= a && a + 2 < |x.data| && a <= x.last && Hashed(t, x.bits, x.shift, a, HashAt(x, a))
  {
    hide Chains, Hash, Slot;
    KnownLive(x, a);
    LiveKnown(x, t.known, a);
  }

  // Every position inserted less than a window back is found from the head of its hash, unless it
  // stands at the start of the window, where its index is that of NIL.
  lemma AllFound(x: Index, t: Text, b: int)
    requires Chains(x) && TextOf(x, t) && b in t.known && x.base < b && x.last - x.w < b
    ensures 0 <= b <= x.last && b + 2 < |x.data| && 0 <= HashAt(x, b) < |x.head|
    ensures 0 < x.w == |x.prev| && Reaches(x, x.head[HashAt(x, b)], b, x.last - b, b - x.base - 1)
  {
    hide Hash, Slot, Pow2, HeadOk, SlotOk, NoneBetween, SlotDense, Alike, Known;
    ChainsWidth(x);
    assert Known(x, b);
    KnownLive(x, b);
    OwnerBound(x, Slot(b, x.w));
    var h := HashAt(x, b);
    HashInHead(x, b);
    assert NoneBetween(x, x.head[h], x.last + 1, h);
    NotSkipped(x, x.head[h], x.last + 1, h, b);
    HeadParts(x, h);
    KnownHashed(x, t, b);
    KnownHashed(x, t, x.base + x.head[h]);
    if x.base + x.head[h] != b { AlikeBound(t, x.bits, x.shift, h, b, x.base + x.head[h]); }
    ChainExactly(x, t, x.head[h], b, x.last - b, b - x.base - 1);
  }

  // The same of the link of the position s just inserted. The first link may lead to the floor itself.
  ghost predicate OnLink(x: Index, t: Text, s: int, b: int, k: nat, floor: nat)
  {
    && 0 <= x.base + s && x.base + s + 2 < |x.data| && b < x.base + s
    && Hashed(t, x.bits, x.shift, b, HashAt(x, x.base + s))
    && var n := Alike(t, x.bits, x.shift, HashAt(x, x.base + s), b, x.base + s);
      n <= k && x.base + floor <= b && (b == x.base + floor ==> n == 0)
  }

  lemma LinkExactly(x: Index, t: Text, s: int, b: int, k: nat, floor: nat)
    requires Chains(x) && TextOf(x, t) && s > 0 && Known(x, x.base + s) && x.last == x.base + s
    requires x.last - x.w < x.base + floor && b > x.base
    ensures 0 < x.w == |x.prev| && var e := x.prev[Slot(s, x.w)];
      (e > 0 && e >= floor && Reaches(x, e, b, k, floor)) <==> OnLink(x, t, s, b, k, floor)
  {
    hide Chains, Known, Hash, Slot, TextOf, Alike, NoneBetween, Reaches;
    ChainsWidth(x);
    KnownHashed(x, t, x.base + s);
    var e := NextLink(x, s);
    var h := HashAt(x, x.base + s);
    if e > 0 && e >= floor {
      LeadsParts(x, x.base + e, x.base + s);
      NoneHashed(x, t, e, s, h);
      KnownHashed(x, t, x.base + e);
      ChainExactly(x, t, e, b, k, floor);
      if b < x.base + e { AlikeLink(t, x.bits, x.shift, h, b, x.base + e, x.base + s); }
      if b == x.base + e { AlikeNone(t, x.bits, x.shift, h, b, x.base + s); }
    } else {
      if x.base + floor <= b < x.base + s { NoneLinked(x, t, e, s, b, floor); }
    }
  }

  lemma NoneLinked(x: Index, t: Text, e: int, s: int, b: int, floor: nat)
    requires Chains(x) && TextOf(x, t) && 0 <= x.base + s && x.base + s + 2 < |x.data| && 0 <= e
    requires NoneBetween(x, e, x.base + s, HashAt(x, x.base + s)) && x.last - x.w < x.base + floor
    requires (e == 0 || e < floor) && b > x.base && b >= x.base + floor && b < x.base + s
    ensures !Hashed(t, x.bits, x.shift, b, HashAt(x, x.base + s))
  {
    hide Chains, Hash;
    if b in t.known {
      assert Known(x, b);
      KnownLive(x, b);
    }
  }

  lemma HashInHead(x: Index, b: int)
    requires Sound(x) && 0 <= b && b + 2 < |x.data|
    ensures 0 <= HashAt(x, b) < |x.head|
  {
    hide HeadOk, SlotOk, Slot, Update, Pow2;
    var u := Update(Update(0, x.data[b], x.bits, x.shift), x.data[b + 1], x.bits, x.shift);
    UpdateSmall(u, x.data[b + 2], x.bits, x.shift);
  }

  lemma NotSkipped(x: Index, e: int, end: int, h: int, b: int)
    requires NoneBetween(x, e, end, h) && Live(x, b) && b < end && b + 2 < |x.data| && HashAt(x, b) == h
    ensures b <= x.base + e
  {
  }

  lemma HeadParts(x: Index, h: int)
    requires Sound(x) && 0 <= h < |x.head| && x.head[h] != 0
    ensures x.head[h] > 0 && Known(x, x.base + x.head[h]) && HashAt(x, x.base + x.head[h]) == h
    ensures x.base + x.head[h] <= x.last
  {
    hide SlotOk, Pow2, Slot, Hash;
    assert HeadOk(x, h);
  }

  // The link from a known position less than a window back.
  lemma NextLink(x: Index, m: int) returns (e: int)
    requires Chains(x) && m > 0 && Known(x, x.base + m) && x.last - x.w < x.base + m
    ensures 0 < x.w == |x.prev| && e == x.prev[Slot(m, x.w)] && 0 <= e
    ensures e != 0 ==> Leads(x, x.base + e, x.base + m)
    ensures NoneBetween(x, e, x.base + m, HashAt(x, x.base + m))
  {
    hide Hash, Slot, Pow2, HeadOk, NoneBetween;
    e := x.prev[Slot(m, x.w)];
    Follow(x, m, x.last);
    SlotShift(x.base, m, x.w);
    var j := Slot(m, x.w);
    assert SlotOk(x, j) && SlotDense(x, j);
    SlotUnique(x.base + m, x.owner[j], x.w);
  }

  // From a known position less than a window back, prev leads to an earlier position with
  // the same hash, or to nothing.
  lemma Follow(x: Index, cur: int, top: int)
    requires Chains(x) && 0 <= cur && Known(x, x.base + cur) && x.last <= top && top - x.w < x.base + cur
    ensures var v := x.prev[Slot(cur, x.w)];
      0 <= v && (v != 0 ==> Leads(x, x.base + v, x.base + cur))
  {
    hide Hash, Pow2, HeadOk;
    SlotShift(x.base, cur, x.w);
    var j := Slot(cur, x.w);
    assert SlotOk(x, j);
    SlotUnique(x.base + cur, x.owner[j], x.w);
  }

  // Same hash, same first two bytes: the third byte need not be compared.
  lemma ThirdEqual(x: Index, a: int, b: int)
    requires HashSizes(x.bits, x.shift) && Leads(x, a, b) && x.data[a] == x.data[b] && x.data[a + 1] == x.data[b + 1]
    ensures x.data[a + 2] == x.data[b + 2]
  {
    hide Slot, Hash;
    ThirdByte(x.data[b], x.data[b + 1], x.data[a + 2], x.data[b + 2], x.bits, x.shift);
  }

  lemma LeadsTrans(x: Index, a: int, b: int, c: int)
    requires Leads(x, a, b) && Leads(x, b, c)
    ensures Leads(x, a, c)
  {
  }
}
