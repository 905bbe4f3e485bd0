/** Nested packers: arrays, sequences and structs of atomic packers (`t_pck_l.c`). */
module PackTree {
  import opened Words
  import opened PackInt

  datatype Packer =
    | Bool
    | Int(p: IntPacker)
    | Arr(count: nat, elem: Packer)
    | Seq(elems: seq<Packer>)
    | Str(keys: seq<string>, fields: seq<Packer>)

  datatype Value =
    | BoolV(b: bool)
    | IntV(i: int)
    | ListV(items: seq<Value>)
    | StructV(names: seq<string>, values: seq<Value>)

  predicate Atomic(p: Packer) {
    p.Bool? || p.Int?
  }

  /** An atomic packer as a field of bits. */
  function Field(p: Packer): IntPacker
    requires Atomic(p)
  {
    if p.Bool? then IntPacker(1, false, false) else p.p
  }

  /** What the constructors guarantee: numbers have 1 to 64 bits, struct fields have names. */
  ghost predicate WellFormed(p: Packer) {
    match p
    case Bool => true
    case Int(q) => Sized(q)
    case Arr(_, e) => WellFormed(e)
    case Seq(ps) => forall q | q in ps :: WellFormed(q)
    case Str(ks, ps) => |ks| == |ps| && forall q | q in ps :: WellFormed(q)
  }

  // ---- sizes ------------------------------------------------------------------------------

  /** The bits a packer covers. */
  function Size(p: Packer): nat
    decreases p, 0
  {
    match p
    case Bool => 1
    case Int(q) => q.width
    case Arr(n, e) => SizeRep(n, e)
    case Seq(ps) => SizeAll(ps)
    case Str(_, ps) => SizeAll(ps)
  }

  function SizeRep(n: nat, e: Packer): nat
    decreases e, n + 1
  {
    if n == 0 then 0 else Size(e) + SizeRep(n - 1, e)
  }

  lemma {:induction false} SizeRepTimes(n: nat, e: Packer)
    ensures SizeRep(n, e) == n * Size(e)
    decreases n
  {
    if n > 0 {
      SizeRepTimes(n - 1, e);
      assert n * Size(e) == Size(e) + (n - 1) * Size(e);
    }
  }

  function SizeAll(ps: seq<Packer>): nat
    decreases ps, 0
  {
    if ps == [] then 0 else Size(ps[0]) + SizeAll(ps[1..])
  }

  /** What t_pck_getSize answers: one element of size 0 makes the whole combinator 0. */
  function Reported(p: Packer): nat
    decreases p, 0
  {
    match p
    case Bool => 1
    case Int(q) => q.width
    case Arr(n, e) => n * Reported(e)
    case Seq(ps) => ReportedAll(ps)
    case Str(_, ps) => ReportedAll(ps)
  }

  function ReportedAll(ps: seq<Packer>): nat
    decreases ps, 0
  {
    if ps == [] then 0
    else if Reported(ps[0]) == 0 then 0
    else if |ps| == 1 then Reported(ps[0])
    else if ReportedAll(ps[1..]) == 0 then 0
    else Reported(ps[0]) + ReportedAll(ps[1..])
  }

  /** No combinator in the tree is empty. */
  predicate Solid(p: Packer)
    decreases p, 0
  {
    match p
    case Bool => true
    case Int(q) => true
    case Arr(n, e) => n > 0 && Solid(e)
    case Seq(ps) => ps != [] && forall q | q in ps :: Solid(q)
    case Str(_, ps) => ps != [] && forall q | q in ps :: Solid(q)
  }

  lemma {:induction false} ReportedIsSize(p: Packer)
    requires WellFormed(p)
    ensures Reported(p) > 0 <==> Solid(p)
    ensures Solid(p) ==> Reported(p) == Size(p)
    decreases p, 0
  {
    match p
    case Bool =>
    case Int(q) =>
    case Arr(n, e) =>
      ReportedIsSize(e);
      SizeRepTimes(n, e);
      ProductPositive(n, Reported(e));
    case Seq(ps) => ReportedIsSizeAll(ps);
    case Str(_, ps) => ReportedIsSizeAll(ps);
  }

  lemma ProductPositive(a: nat, b: nat)
    ensures a * b > 0 <==> a > 0 && b > 0
  {
    if a > 0 && b > 0 {
      MulAtLeast(a, b);
    }
  }

  lemma {:induction false} ReportedIsSizeAll(ps: seq<Packer>)
    requires forall q | q in ps :: WellFormed(q)
    ensures ReportedAll(ps) > 0 <==> ps != [] && forall q | q in ps :: Solid(q)
    ensures ps != [] && (forall q | q in ps :: Solid(q)) ==> ReportedAll(ps) == SizeAll(ps)
    decreases ps, 0
  {
    if ps != [] {
      ReportedIsSize(ps[0]);
      ReportedIsSizeAll(ps[1..]);
      assert forall q :: q in ps <==> q == ps[0] || q in ps[1..];
    }
  }

  /** Main result: the reported size is the real one exactly when no combinator is empty,
      or nothing in the tree occupies a bit. */
  lemma ReportedExactly(p: Packer)
    requires WellFormed(p)
    ensures Reported(p) == Size(p) <==> Solid(p) || Size(p) == 0
  {
    ReportedIsSize(p);
  }

  /** A byte followed by an empty array: eight bits, reported as none. */
  lemma ReportedCollapses()
    ensures var p := Seq([Int(IntPacker(8, false, false)), Arr(0, Bool)]);
            WellFormed(p) && Size(p) == 8 && Reported(p) == 0
  {
    var byteField, none := Int(IntPacker(8, false, false)), Arr(0, Bool);
    assert [byteField, none][1..] == [none];
    assert [none][1..] == [];
  }

  // ---- the leaves and their places ------------------------------------------------------------

  datatype Slot = Slot(leaf: Packer, at: nat)

  /** The atomic packers of a tree with their bit positions, in reading order. */
  function Slots(p: Packer, at: nat): seq<Slot>
    decreases p, 0
  {
    match p
    case Bool => [Slot(p, at)]
    case Int(_) => [Slot(p, at)]
    case Arr(n, e) => SlotsRep(n, e, at)
    case Seq(ps) => SlotsAll(ps, at)
    case Str(_, ps) => SlotsAll(ps, at)
  }

  function SlotsRep(n: nat, e: Packer, at: nat): seq<Slot>
    decreases e, n + 1
  {
    if n == 0 then [] else Slots(e, at) + SlotsRep(n - 1, e, at + Size(e))
  }

  function SlotsAll(ps: seq<Packer>, at: nat): seq<Slot>
    decreases ps, 0
  {
    if ps == [] then [] else Slots(ps[0], at) + SlotsAll(ps[1..], at + Size(ps[0]))
  }

  /** The slots tile [from, to): each starts where the one before ends. */
  ghost predicate Tiles(s: seq<Slot>, from: nat, to: nat)
    decreases |s|
  {
    if s == [] then from == to
    else
      && Atomic(s[0].leaf) && s[0].at == from
      && 1 <= Field(s[0].leaf).width <= 64
      && Tiles(s[1..], from + Field(s[0].leaf).width, to)
  }

  lemma {:induction false} TilesConcat(s: seq<Slot>, t: seq<Slot>, from: nat, mid: nat, to: nat)
    requires Tiles(s, from, mid) && Tiles(t, mid, to)
    ensures Tiles(s + t, from, to)
    decreases |s|
  {
    if s == [] {
      assert s + t == t;
    } else {
      assert (s + t)[1..] == s[1..] + t;
      TilesConcat(s[1..], t, from + Field(s[0].leaf).width, mid, to);
    }
  }

  /** Main result: the leaves occupy consecutive bit ranges that cover exactly the packer's
      interval. */
  lemma {:induction false} SlotsTile(p: Packer, at: nat)
    requires WellFormed(p)
    ensures Tiles(Slots(p, at), at, at + Size(p))
    decreases p, 0
  {
    match p
    case Bool => assert Slots(p, at)[1..] == [];
    case Int(q) => assert Slots(p, at)[1..] == [];
    case Arr(n, e) => SlotsRepTile(n, e, at);
    case Seq(ps) => SlotsAllTile(ps, at);
    case Str(_, ps) => SlotsAllTile(ps, at);
  }

  lemma {:induction false} SlotsRepTile(n: nat, e: Packer, at: nat)
    requires WellFormed(e)
    ensures Tiles(SlotsRep(n, e, at), at, at + SizeRep(n, e))
    decreases e, n + 1
  {
    if n > 0 {
      SlotsTile(e, at);
      SlotsRepTile(n - 1, e, at + Size(e));
      hide WellFormed, Tiles, Slots, Size;
      TilesConcat(Slots(e, at), SlotsRep(n - 1, e, at + Size(e)), at, at + Size(e), at + SizeRep(n, e));
    }
  }

  lemma {:induction false} SlotsAllTile(ps: seq<Packer>, at: nat)
    requires forall q | q in ps :: WellFormed(q)
    ensures Tiles(SlotsAll(ps, at), at, at + SizeAll(ps))
    decreases ps, 0
  {
    if ps != [] {
      SlotsTile(ps[0], at);
      SlotsAllTile(ps[1..], at + Size(ps[0]));
      TilesConcat(Slots(ps[0], at), SlotsAll(ps[1..], at + Size(ps[0])),
                  at, at + Size(ps[0]), at + SizeAll(ps));
    }
  }

  lemma {:induction false} TileBounds(s: seq<Slot>, from: nat, to: nat, i: nat)
    requires Tiles(s, from, to) && i < |s|
    ensures Atomic(s[i].leaf) && 1 <= Field(s[i].leaf).width <= 64
    ensures from <= s[i].at && s[i].at + Field(s[i].leaf).width <= to
    decreases |s|
  {
    TilesOrdered(s[1..], from + Field(s[0].leaf).width, to);
    if i > 0 {
      TileBounds(s[1..], from + Field(s[0].leaf).width, to, i - 1);
    }
  }

  lemma {:induction false} TilesOrdered(s: seq<Slot>, from: nat, to: nat)
    requires Tiles(s, from, to)
    ensures from <= to
    decreases |s|
  {
    if s != [] {
      TilesOrdered(s[1..], from + Field(s[0].leaf).width, to);
    }
  }

  /** Different slots share no bit. */
  lemma {:induction false} SlotsDisjoint(s: seq<Slot>, from: nat, to: nat, i: nat, j: nat)
    requires Tiles(s, from, to) && i < j < |s|
    ensures Atomic(s[i].leaf) && s[i].at + Field(s[i].leaf).width <= s[j].at
    decreases |s|
  {
    var next := from + Field(s[0].leaf).width;
    if i == 0 {
      TileBounds(s[1..], next, to, j - 1);
    } else {
      SlotsDisjoint(s[1..], next, to, i - 1, j - 1);
    }
  }

  // ---- reading ----------------------------------------------------------------------------------

  ghost predicate Covers(b: seq<byte>, p: Packer, at: nat) {
    at + Size(p) <= 8 * |b|
  }

  function ReadLeaf(b: seq<byte>, leaf: Packer, at: nat): Value
    requires Atomic(leaf) && WellFormed(leaf) && Covers(b, leaf, at)
  {
    if leaf.Bool? then BoolV(Raw(b, Field(leaf), at) == 1) else IntV(ValueOf(leaf.p, Raw(b, leaf.p, at)))
  }

  /** The value tree t_pck__callread builds. */
  function Read(p: Packer, b: seq<byte>, at: nat): Value
    requires WellFormed(p) && Covers(b, p, at)
    decreases p, 0
  {
    match p
    case Bool => ReadLeaf(b, p, at)
    case Int(_) => ReadLeaf(b, p, at)
    case Arr(n, e) => ListV(ReadRep(n, e, b, at))
    case Seq(ps) => ListV(ReadAll(ps, b, at))
    case Str(ks, ps) => StructV(ks, ReadAll(ps, b, at))
  }

  function ReadRep(n: nat, e: Packer, b: seq<byte>, at: nat): (vs: seq<Value>)
    requires WellFormed(e) && at + SizeRep(n, e) <= 8 * |b|
    decreases e, n + 1
  {
    if n == 0 then [] else [Read(e, b, at)] + ReadRep(n - 1, e, b, at + Size(e))
  }

  function ReadAll(ps: seq<Packer>, b: seq<byte>, at: nat): (vs: seq<Value>)
    requires (forall q | q in ps :: WellFormed(q)) && at + SizeAll(ps) <= 8 * |b|
    decreases ps, 0
  {
    if ps == [] then [] else [Read(ps[0], b, at)] + ReadAll(ps[1..], b, at + Size(ps[0]))
  }

  // ---- value trees ---------------------------------------------------------------------------------

  /** The value tree has the packer's shape. */
  ghost predicate Shaped(p: Packer, v: Value)
    decreases p, 0
  {
    match p
    case Bool => v.BoolV?
    case Int(_) => v.IntV?
    case Arr(n, e) => v.ListV? && |v.items| == n && forall w | w in v.items :: Shaped(e, w)
    case Seq(ps) => v.ListV? && ShapedAll(ps, v.items)
    case Str(ks, ps) => v.StructV? && v.names == ks && ShapedAll(ps, v.values)
  }

  ghost predicate ShapedAll(ps: seq<Packer>, vs: seq<Value>)
    decreases ps, 0
  {
    |ps| == |vs| && (ps == [] || (Shaped(ps[0], vs[0]) && ShapedAll(ps[1..], vs[1..])))
  }

  /** The leaf values of a tree, in reading order. */
  function Flat(v: Value): seq<Value>
    decreases v, 0
  {
    match v
    case BoolV(_) => [v]
    case IntV(_) => [v]
    case ListV(vs) => FlatAll(vs)
    case StructV(_, vs) => FlatAll(vs)
  }

  function FlatAll(vs: seq<Value>): seq<Value>
    decreases vs, 0
  {
    if vs == [] then [] else Flat(vs[0]) + FlatAll(vs[1..])
  }

  /** The buffer holds value `vs[i]` in slot `s[i]`, for every i. */
  ghost predicate Holds(b: seq<byte>, s: seq<Slot>, vs: seq<Value>) {
    && |s| == |vs|
    && forall i | 0 <= i < |s| :: HoldsAt(b, s[i], vs[i])
  }

  ghost predicate HoldsAt(b: seq<byte>, s: Slot, v: Value) {
    && Atomic(s.leaf) && WellFormed(s.leaf) && Covers(b, s.leaf, s.at)
    && ReadLeaf(b, s.leaf, s.at) == v
  }

  lemma HoldsSplit(b: seq<byte>, s: seq<Slot>, t: seq<Slot>, vs: seq<Value>, ws: seq<Value>)
    requires |s| == |vs| && Holds(b, s + t, vs + ws)
    ensures Holds(b, s, vs) && Holds(b, t, ws)
  {
    forall i | 0 <= i < |s|
      ensures HoldsAt(b, s[i], vs[i])
    {
      assert HoldsAt(b, (s + t)[i], (vs + ws)[i]);
    }
    forall i | 0 <= i < |t|
      ensures HoldsAt(b, t[i], ws[i])
    {
      assert HoldsAt(b, (s + t)[|s| + i], (vs + ws)[|s| + i]);
    }
  }

  lemma {:induction false} FlatLength(p: Packer, v: Value, at: nat)
    requires Shaped(p, v)
    ensures |Flat(v)| == |Slots(p, at)|
    decreases p, 0
  {
    match p
    case Bool =>
    case Int(_) =>
    case Arr(n, e) => FlatLengthRep(e, v.items, at);
    case Seq(ps) => FlatLengthAll(ps, v.items, at);
    case Str(_, ps) => FlatLengthAll(ps, v.values, at);
  }

  lemma {:induction false} FlatLengthRep(e: Packer, vs: seq<Value>, at: nat)
    requires forall w | w in vs :: Shaped(e, w)
    ensures |FlatAll(vs)| == |SlotsRep(|vs|, e, at)|
    decreases e, |vs| + 1
  {
    if vs != [] {
      FlatLength(e, vs[0], at);
      FlatLengthRep(e, vs[1..], at + Size(e));
    }
  }

  lemma {:induction false} FlatLengthAll(ps: seq<Packer>, vs: seq<Value>, at: nat)
    requires ShapedAll(ps, vs)
    ensures |FlatAll(vs)| == |SlotsAll(ps, at)|
    decreases ps, 0
  {
    if ps != [] {
      FlatLength(ps[0], vs[0], at);
      FlatLengthAll(ps[1..], vs[1..], at + Size(ps[0]));
    }
  }

  /** Main result: a buffer whose slots hold the leaves of a tree reads as that tree. */
  lemma {:induction false} ReadsTree(p: Packer, v: Value, b: seq<byte>, at: nat)
    requires WellFormed(p) && Covers(b, p, at) && Shaped(p, v)
    requires Holds(b, Slots(p, at), Flat(v))
    ensures Read(p, b, at) == v
    decreases p, 0
  {
    match p
    case Bool => assert HoldsAt(b, Slots(p, at)[0], Flat(v)[0]);
    case Int(_) => assert HoldsAt(b, Slots(p, at)[0], Flat(v)[0]);
    case Arr(n, e) => ReadsRep(e, v.items, b, at);
    case Seq(ps) => ReadsAll(ps, v.items, b, at);
    case Str(_, ps) => ReadsAll(ps, v.values, b, at);
  }

  lemma {:induction false} ReadsRep(e: Packer, vs: seq<Value>, b: seq<byte>, at: nat)
    requires WellFormed(e) && at + SizeRep(|vs|, e) <= 8 * |b|
    requires forall w | w in vs :: Shaped(e, w)
    requires Holds(b, SlotsRep(|vs|, e, at), FlatAll(vs))
    ensures ReadRep(|vs|, e, b, at) == vs
    decreases e, |vs| + 1
  {
    if vs != [] {
      RepUnfolds(e, vs, b, at);
      HeadOfRep(e, vs, b, at);
      hide *;
      ReadsTree(e, vs[0], b, at);
      ReadsRep(e, vs[1..], b, at + Size(e));
    }
  }

  lemma RepUnfolds(e: Packer, vs: seq<Value>, b: seq<byte>, at: nat)
    requires vs != [] && WellFormed(e) && at + SizeRep(|vs|, e) <= 8 * |b|
    requires forall w | w in vs :: Shaped(e, w)
    ensures Shaped(e, vs[0]) && |vs[1..]| == |vs| - 1 && forall w | w in vs[1..] :: Shaped(e, w)
    ensures Covers(b, e, at) && at + Size(e) + SizeRep(|vs| - 1, e) <= 8 * |b|
    ensures Read(e, b, at) == vs[0] && ReadRep(|vs[1..]|, e, b, at + Size(e)) == vs[1..]
            ==> ReadRep(|vs|, e, b, at) == vs
  {
    hide WellFormed, Read, Size, Shaped;
    assert vs == [vs[0]] + vs[1..];
  }

  /** The slots of the first element and those of the others. */
  lemma HeadOfRep(e: Packer, vs: seq<Value>, b: seq<byte>, at: nat)
    requires vs != [] && Shaped(e, vs[0]) && Holds(b, SlotsRep(|vs|, e, at), FlatAll(vs))
    ensures Holds(b, Slots(e, at), Flat(vs[0]))
    ensures Holds(b, SlotsRep(|vs| - 1, e, at + Size(e)), FlatAll(vs[1..]))
  {
    FlatLength(e, vs[0], at);
    hide Shaped, Holds, Slots, Flat;
    HoldsSplit(b, Slots(e, at), SlotsRep(|vs| - 1, e, at + Size(e)), Flat(vs[0]), FlatAll(vs[1..]));
  }

  lemma {:induction false} ReadsAll(ps: seq<Packer>, vs: seq<Value>, b: seq<byte>, at: nat)
    requires (forall q | q in ps :: WellFormed(q)) && at + SizeAll(ps) <= 8 * |b|
    requires ShapedAll(ps, vs)
    requires Holds(b, SlotsAll(ps, at), FlatAll(vs))
    ensures ReadAll(ps, b, at) == vs
    decreases ps, 0
  {
    if ps != [] {
      FlatLength(ps[0], vs[0], at);
      HoldsSplit(b, Slots(ps[0], at), SlotsAll(ps[1..], at + Size(ps[0])), Flat(vs[0]), FlatAll(vs[1..]));
      ReadsTree(ps[0], vs[0], b, at);
      ReadsAll(ps[1..], vs[1..], b, at + Size(ps[0]));
    }
  }

  // ---- writing leaves in any order -----------------------------------------------------------------

  /** One successful t_pck_write of an atomic packer. */
  ghost predicate LeafWritten(b0: seq<byte>, b1: seq<byte>, s: Slot, v: Value) {
    && Atomic(s.leaf)
    && match s.leaf {
         case Bool => v.BoolV? && Stored(b0, b1, Field(s.leaf), s.at, if v.b then 1 else 0)
         case Int(q) => v.IntV? && 1 <= q.width <= 63 && Fits(q, v.i) && Stored(b0, b1, q, s.at, ToRaw(q, v.i))
         case _ => false
       }
  }

  lemma WrittenHolds(b0: seq<byte>, b1: seq<byte>, s: Slot, v: Value)
    requires LeafWritten(b0, b1, s, v)
    ensures HoldsAt(b1, s, v)
  {
    hide Raw, Pow2, ValueOf, ToRaw;
    var q := Field(s.leaf);
    if s.leaf.Bool? {
      RawSpells(b1, q, s.at);
      SpellsUnique(b1, q, s.at, Raw(b1, q, s.at), if v.b then 1 else 0);
    } else {
      ReadBack(b0, b1, q, s.at, v.i);
    }
  }

  lemma WrittenKeeps(b0: seq<byte>, b1: seq<byte>, s: Slot, v: Value, t: Slot, w: Value)
    requires LeafWritten(b0, b1, s, v) && HoldsAt(b0, t, w)
    requires Atomic(t.leaf) && (s.at + Field(s.leaf).width <= t.at || t.at + Field(t.leaf).width <= s.at)
    ensures HoldsAt(b1, t, w)
  {
    hide Spells, Raw, Pow2, ValueOf, ToRaw;
    var q := Field(s.leaf);
    var raw := if s.leaf.Bool? then (if v.b then 1 else 0) else ToRaw(q, v.i);
    Undisturbed(b0, b1, q, s.at, raw, Field(t.leaf), t.at);
  }

  /** `bufs` are the contents of the buffer while the leaves named by `order` are written. */
  ghost predicate WriteRun(bufs: seq<seq<byte>>, s: seq<Slot>, vs: seq<Value>, order: seq<nat>) {
    && |bufs| == |order| + 1 && |s| == |vs|
    && (forall j | 0 <= j < |order| :: order[j] < |s|)
    && forall j | 0 <= j < |order| :: LeafWritten(bufs[j], bufs[j + 1], s[order[j]], vs[order[j]])
  }

  lemma {:induction false} WrittenSoFar(bufs: seq<seq<byte>>, s: seq<Slot>, vs: seq<Value>, order: seq<nat>,
                                        from: nat, to: nat, n: nat, i: nat)
    requires WriteRun(bufs, s, vs, order) && Tiles(s, from, to)
    requires n <= |order| && i in order[..n]
    ensures i < |s| && HoldsAt(bufs[n], s[i], vs[i])
    decreases n
  {
    var m := order[n - 1];
    if i == m {
      WrittenHolds(bufs[n - 1], bufs[n], s[m], vs[m]);
    } else {
      assert order[..n] == order[..n - 1] + [m];
      WrittenSoFar(bufs, s, vs, order, from, to, n - 1, i);
      if i < m {
        SlotsDisjoint(s, from, to, i, m);
      } else {
        SlotsDisjoint(s, from, to, m, i);
      }
      WrittenKeeps(bufs[n - 1], bufs[n], s[m], vs[m], s[i], vs[i]);
    }
  }

  /** Main result: write the leaves of a value tree in any order, each at least once, and the
      packer reads back the tree. */
  lemma WriteThenRead(p: Packer, v: Value, at: nat, bufs: seq<seq<byte>>, order: seq<nat>)
    requires WellFormed(p) && Shaped(p, v)
    requires WriteRun(bufs, Slots(p, at), Flat(v), order)
    requires forall i | 0 <= i < |Slots(p, at)| :: i in order
    requires Covers(bufs[|order|], p, at)
    ensures Read(p, bufs[|order|], at) == v
  {
    var s, n := Slots(p, at), |order|;
    SlotsTile(p, at);
    assert order[..n] == order;
    forall i | 0 <= i < |s|
      ensures HoldsAt(bufs[n], s[i], Flat(v)[i])
    {
      WrittenSoFar(bufs, s, Flat(v), order, at, at + Size(p), n, i);
    }
    ReadsTree(p, v, bufs[n], at);
  }

  // ---- writing one leaf -----------------------------------------------------------------------------

  /** The value is of the kind the packer asks for and, for a number, in its range. */
  ghost predicate Accepts(leaf: Packer, v: Value)
    requires Atomic(leaf) && WellFormed(leaf)
  {
    if leaf.Bool? then v.BoolV? else v.IntV? && Fits(leaf.p, v.i)
  }

  /** Whatever a leaf is read as, it accepts. */
  lemma AcceptsWhatIsRead(leaf: Packer, b: seq<byte>, at: nat)
    requires Atomic(leaf) && WellFormed(leaf) && (leaf.Int? ==> leaf.p.width <= 63) && Covers(b, leaf, at)
    ensures Accepts(leaf, ReadLeaf(b, leaf, at))
  {
    if leaf.Int? {
      hide Raw, ValueOf, Fits, ToRaw;
      ReadFits(leaf.p, Raw(b, leaf.p, at));
    }
  }

  lemma BoolStored(b: seq<byte>, at: nat, v: bool)
    requires at < 8 * |b|
    ensures Stored(b, b[at / 8 := BitSet(b[at / 8], at % 8, v)], Field(Bool), at, if v then 1 else 0)
  {
    hide BitSet, BitAt;
    var b1 := b[at / 8 := BitSet(b[at / 8], at % 8, v)];
    forall k | 0 <= k < 8 * |b|
      ensures BitAt(b1, k) == if k == at then (if v then 1 else 0) else BitAt(b, k)
    {
      SetBitAt(b, at / 8, at % 8, v, k);
    }
  }

  /** t_pck_write of an atomic packer: an error leaves the buffer as it is. */
  method WriteLeaf(leaf: Packer, b: array<byte>, ofs: nat, v: Value) returns (ok: bool)
    requires Atomic(leaf) && WellFormed(leaf) && ofs + Field(leaf).width <= 8 * b.Length
    requires leaf.Int? ==> leaf.p.width <= 63
    requires v.IntV? ==> -TWO63 <= v.i < TWO63
    modifies b
    ensures ok <==> Accepts(leaf, v)
    ensures ok ==> LeafWritten(old(b[..]), b[..], Slot(leaf, ofs), v)
    ensures !ok ==> b[..] == old(b[..])
  {
    hide Stored, Fits, BitSet;
    if leaf.Bool? {
      if !v.BoolV? {
        return false;
      }
      ghost var b0 := b[..];
      BoolStored(b0, ofs, v.b);
      b[ofs / 8] := BitSet(b[ofs / 8], ofs % 8, v.b);
      assert b[..] == b0[ofs / 8 := BitSet(b0[ofs / 8], ofs % 8, v.b)];
      ok := true;
    } else {
      if !v.IntV? {
        return false;
      }
      ok := SetIntValue(b, ofs / 8, leaf.p, ofs % 8, v.i);
    }
  }

  // ---- the C functions ---------------------------------------------------------------------------------

  /** t_pck_getSize */
  method GetSize(p: Packer) returns (s: nat)
    ensures s == Reported(p)
    decreases p
  {
    match p {
      case Bool => s := 1;
      case Int(q) => s := q.width;
      case Arr(n, e) =>
        if n == 0 {
          s := 0;
        } else {
          var es := GetSize(e);
          s := n * es;
        }
      case Seq(ps) => s := GetSizeAll(ps);
      case Str(_, ps) => s := GetSizeAll(ps);
    }
  }

  method GetSizeAll(ps: seq<Packer>) returns (s: nat)
    ensures s == ReportedAll(ps)
    decreases ps
  {
    s := 0;
    var n := 0;
    while n < |ps|
      invariant 0 <= n <= |ps|
      invariant n == 0 ==> s == 0
      invariant n > 0 ==> s > 0
      invariant ReportedAll(ps) == if n == |ps| then s
                                   else if ReportedAll(ps[n..]) == 0 then 0 else s + ReportedAll(ps[n..])
    {
      var ns := GetSize(ps[n]);
      assert ps[n..][0] == ps[n] && ps[n..][1..] == ps[n + 1..];
      if ns != 0 {
        s := s + ns;
      } else {
        s := 0;
        return;
      }
      n := n + 1;
    }
  }

  /** Every leaf fits the 64-bit word it is read through. */
  ghost predicate Readable(s: seq<Slot>) {
    forall i | 0 <= i < |s| :: Atomic(s[i].leaf) ==> s[i].at % 8 + Field(s[i].leaf).width <= 64
  }

  lemma ReadableSplit(s: seq<Slot>, t: seq<Slot>)
    requires Readable(s + t)
    ensures Readable(s) && Readable(t)
  {
    forall i | 0 <= i < |s|
      ensures Atomic(s[i].leaf) ==> s[i].at % 8 + Field(s[i].leaf).width <= 64
    {
      assert (s + t)[i] == s[i];
    }
    forall i | 0 <= i < |t|
      ensures Atomic(t[i].leaf) ==> t[i].at % 8 + Field(t[i].leaf).width <= 64
    {
      assert (s + t)[|s| + i] == t[i];
    }
  }

  /** The length test of lt_pck_idx__call for a text of `l` bytes. */
  predicate Admitted(p: Packer, l: nat, ofs: nat) {
    l * 8 + 8 >= ofs + Reported(p)
  }

  /**
    * What the test is worth: for a solid packer it lets the read run over the end by up to eight bits and
    * no more, for one with an empty part it limits nothing but the offset.
    */
  lemma AdmittedOverrun(p: Packer, l: nat, ofs: nat)
    requires WellFormed(p)
    ensures Solid(p) ==>
              (Admitted(p, l, ofs) && ofs + Size(p) > 8 * l <==> 8 * l < ofs + Size(p) <= 8 * l + 8)
    ensures !Solid(p) ==> (Admitted(p, l, ofs) <==> ofs <= 8 * l + 8)
    ensures ofs + Size(p) <= 8 * l ==> Admitted(p, l, ofs)
  {
    ReportedIsSize(p);
  }

  /** t_pck__callread */
  method CallRead(p: Packer, b: array<byte>, ofs: nat) returns (v: Value, end: nat)
    requires WellFormed(p) && Covers(b[..], p, ofs) && Readable(Slots(p, ofs))
    ensures v == Read(p, b[..], ofs)
    ensures end == ofs + Size(p)
    decreases p, 0
  {
    match p {
      case Bool =>
        v := BoolV(BitGet(b[ofs / 8], ofs % 8) == 1);
        end := ofs + 1;
        BoolRaw(b[..], ofs);
      case Int(q) =>
        assert Slots(p, ofs)[0] == Slot(p, ofs);
        var i := GetIntValue(b, ofs / 8, q, ofs % 8);
        v, end := IntV(i), ofs + q.width;
      case Arr(n, e) =>
        var vs;
        vs, end := CallReadRep(n, e, b, ofs);
        v := ListV(vs);
      case Seq(ps) =>
        var vs;
        vs, end := CallReadAll(ps, b, ofs);
        v := ListV(vs);
      case Str(ks, ps) =>
        var vs;
        vs, end := CallReadAll(ps, b, ofs);
        v := StructV(ks, vs);
    }
  }

  lemma BoolRaw(b: seq<byte>, at: nat)
    requires at < 8 * |b|
    ensures Raw(b, Field(Bool), at) == BitGet(b[at / 8], at % 8)
  {
    var q := Field(Bool);
    assert Collect(b, q, at, 1) == 0;
    assert Significance(q, at, 0) == 0;
  }

  lemma RepStep(n: nat, e: Packer, b: seq<byte>, at: nat)
    requires n > 0 && WellFormed(e) && at + SizeRep(n, e) <= 8 * |b| && Readable(SlotsRep(n, e, at))
    ensures SizeRep(n, e) == Size(e) + SizeRep(n - 1, e)
    ensures Readable(Slots(e, at)) && Readable(SlotsRep(n - 1, e, at + Size(e)))
    ensures ReadRep(n, e, b, at) == [Read(e, b, at)] + ReadRep(n - 1, e, b, at + Size(e))
  {
    ReadableSplit(Slots(e, at), SlotsRep(n - 1, e, at + Size(e)));
  }

  lemma RepDone(e: Packer, b: seq<byte>, at: nat)
    requires WellFormed(e) && at + SizeRep(0, e) <= 8 * |b|
    ensures SizeRep(0, e) == 0 && ReadRep(0, e, b, at) == []
  {
  }

  lemma AllStep(ps: seq<Packer>, n: nat, b: seq<byte>, at: nat)
    requires n < |ps| && (forall q | q in ps :: WellFormed(q))
    requires at + SizeAll(ps[n..]) <= 8 * |b| && Readable(SlotsAll(ps[n..], at))
    ensures SizeAll(ps[n..]) == Size(ps[n]) + SizeAll(ps[n + 1..])
    ensures Readable(Slots(ps[n], at)) && Readable(SlotsAll(ps[n + 1..], at + Size(ps[n])))
    ensures ReadAll(ps[n..], b, at) == [Read(ps[n], b, at)] + ReadAll(ps[n + 1..], b, at + Size(ps[n]))
  {
    assert ps[n..][1..] == ps[n + 1..];
    ReadableSplit(Slots(ps[n], at), SlotsAll(ps[n + 1..], at + Size(ps[n])));
  }

  /** The array loop of t_pck__callread. */
  method CallReadRep(n: nat, e: Packer, b: array<byte>, ofs: nat) returns (vs: seq<Value>, end: nat)
    requires WellFormed(e) && ofs + SizeRep(n, e) <= 8 * b.Length
    requires Readable(SlotsRep(n, e, ofs))
    ensures vs == ReadRep(n, e, b[..], ofs)
    ensures end == ofs + SizeRep(n, e)
    decreases e, 1
  {
    hide Readable, WellFormed, Read, Slots, SizeRep, ReadRep, SlotsRep;
    vs, end := [], ofs;
    for k := n downto 0
      invariant end + SizeRep(k, e) == ofs + SizeRep(n, e)
      invariant Readable(SlotsRep(k, e, end))
      invariant vs + ReadRep(k, e, b[..], end) == ReadRep(n, e, b[..], ofs)
    {
      RepStep(k + 1, e, b[..], end);
      var v;
      v, end := CallRead(e, b, end);
      vs := vs + [v];
    }
    RepDone(e, b[..], end);
  }

  /** The sequence and struct loops of t_pck__callread. */
  method CallReadAll(ps: seq<Packer>, b: array<byte>, ofs: nat) returns (vs: seq<Value>, end: nat)
    requires (forall q | q in ps :: WellFormed(q)) && ofs + SizeAll(ps) <= 8 * b.Length
    requires Readable(SlotsAll(ps, ofs))
    ensures vs == ReadAll(ps, b[..], ofs)
    ensures end == ofs + SizeAll(ps)
    decreases ps, 0
  {
    hide Readable, WellFormed, Read, Slots;
    vs, end := [], ofs;
    assert ps[0..] == ps;
    for n := 0 to |ps|
      invariant end + SizeAll(ps[n..]) == ofs + SizeAll(ps)
      invariant Readable(SlotsAll(ps[n..], end))
      invariant vs + ReadAll(ps[n..], b[..], end) == ReadAll(ps, b[..], ofs)
    {
      AllStep(ps, n, b[..], end);
      var v;
      v, end := CallRead(ps[n], b, end);
      vs := vs + [v];
    }
  }
}
