/**
 Deep copies of AnyValue trees on the heap.  The copy functions reuse the backing array of
 the destination slice, and for slices of pointers the objects it points to; the contracts
 say what the result holds whatever length, capacity and stale content the destination had.

 A copy is not deep in one respect: a byte string is copied as a slice, so the copy uses the
 byte array of its source, and writing to that array shows in both.

 A cell is the content of an AnyValue struct.  The wrapper structs of its variants belong to
 one AnyValue only, so that the cell stands for them too; a byte slice is the array that its
 elements lie in.  Object pools are off.
 */
module Copying {
  import opened Common
  import opened Wire
  import opened AnyValues

  /** A Go slice that starts at the front of its backing array; its capacity is the array's length. */
  datatype Slice<T> = Slice(arr: array<T>, len: nat)

  /** The values that hold no object. */
  type Plain = v: AnyValue | !v.BytesValue? && !v.ArrayValue? && !v.KvlistValue? witness Unset

  datatype Cell =
    | Scalar(value: Plain)
    | BytesRef(bytes: array<Byte>)
    | ArrayRef(list: ArrayObj?)
    | KvlistRef(pairs: KvlistObj?)

  datatype Pair = Pair(key: seq<Byte>, value: Cell, keyStrindex: I32)

  class ArrayObj {
    var Values: Slice<Cell>

    constructor (values: Slice<Cell>)
      ensures Values == values
    {
      Values := values;
    }
  }

  class KvlistObj {
    var Values: Slice<Pair>

    constructor (values: Slice<Pair>)
      ensures Values == values
    {
      Values := values;
    }
  }

  class AnyObj {
    var Value: Cell

    constructor ()
      ensures Value == EMPTY
    {
      Value := EMPTY;
    }
  }

  const EMPTY := Scalar(Unset)
  const EMPTY_PAIR := Pair([], EMPTY, 0)

  // ----- trees of objects

  /** A tree as it lies on the heap: its lists and pairs, and the arrays that its byte strings lie in. */
  datatype Tree = Leaf(value: Plain) | Bytes(bytes: array<Byte>) | List(list: ListPtr) | Pairs(pairs: PairsPtr)
  datatype ListPtr = NilList | Listed(trees: seq<Tree>)
  datatype PairsPtr = NilPairs | Paired(items: seq<Item>)
  datatype Item = Item(key: seq<Byte>, tree: Tree, keyStrindex: I32)

  /** The byte arrays of a tree that hold anything. */
  function Arrays(t: Tree): set<array<Byte>>
    decreases t
  {
    match t
    case Leaf(_) => {}
    case Bytes(a) => if a.Length == 0 then {} else {a}
    case List(NilList) => {}
    case List(Listed(ts)) => ArraysAll(ts)
    case Pairs(NilPairs) => {}
    case Pairs(Paired(items)) => ArraysPairs(items)
  }

  function ArraysAll(ts: seq<Tree>): set<array<Byte>>
    decreases ts
  {
    if ts == [] then {} else Arrays(ts[0]) + ArraysAll(ts[1..])
  }

  function ArraysPairs(items: seq<Item>): set<array<Byte>>
    decreases items
  {
    if items == [] then {} else Arrays(items[0].tree) + ArraysPairs(items[1..])
  }

  lemma {:induction false} ArraysAllocated(t: Tree)
    ensures allocated(Arrays(t))
    decreases t
  {
    match t {
      case List(Listed(ts)) => ArraysAllAllocated(ts);
      case Pairs(Paired(items)) => ArraysPairsAllocated(items);
      case _ =>
    }
  }

  lemma {:induction false} ArraysAllAllocated(ts: seq<Tree>)
    ensures allocated(ArraysAll(ts))
    decreases ts
  {
    if ts != [] {
      ArraysAllocated(ts[0]);
      ArraysAllAllocated(ts[1..]);
    }
  }

  lemma {:induction false} ArraysPairsAllocated(items: seq<Item>)
    ensures allocated(ArraysPairs(items))
    decreases items
  {
    if items != [] {
      ArraysAllocated(items[0].tree);
      ArraysPairsAllocated(items[1..]);
    }
  }

  /** The bytes in some arrays. */
  type Memory = map<array<Byte>, seq<Byte>>

  /** Those in the heap now. */
  ghost function Now(arrays: set<array<Byte>>): (mem: Memory)
    reads arrays
    ensures mem.Keys == arrays && Fits(mem)
  {
    map a | a in arrays :: a[..]
  }

  predicate Fits(mem: Memory) {
    forall a :: a in mem ==> |mem[a]| == a.Length
  }

  /** The value a tree holds. */
  function Content(t: Tree, mem: Memory): AnyValue
    requires Arrays(t) <= mem.Keys
    decreases t
  {
    match t
    case Leaf(v) => v
    case Bytes(a) => BytesValue(if a.Length == 0 then [] else mem[a])
    case List(NilList) => ArrayValue(NilArray)
    case List(Listed(ts)) => ArrayValue(Array(ContentAll(ts, mem)))
    case Pairs(NilPairs) => KvlistValue(NilKvlist)
    case Pairs(Paired(items)) => KvlistValue(Kvlist(ContentPairs(items, mem)))
  }

  function ContentAll(ts: seq<Tree>, mem: Memory): seq<AnyValue>
    requires ArraysAll(ts) <= mem.Keys
    decreases ts
  {
    if ts == [] then [] else [Content(ts[0], mem)] + ContentAll(ts[1..], mem)
  }

  function ContentPairs(items: seq<Item>, mem: Memory): seq<KeyValue>
    requires ArraysPairs(items) <= mem.Keys
    decreases items
  {
    if items == [] then []
    else
      var first := KeyValue(items[0].key, Content(items[0].tree, mem), items[0].keyStrindex);
      [first] + ContentPairs(items[1..], mem)
  }

  /** No byte string in it but empty ones. */
  predicate NoBytes(v: AnyValue)
    decreases v
  {
    match v
    case BytesValue(bs) => bs == []
    case ArrayValue(Array(vs)) => NoBytesAll(vs)
    case KvlistValue(Kvlist(kvs)) => NoBytesPairs(kvs)
    case _ => true
  }

  predicate NoBytesAll(vs: seq<AnyValue>)
    decreases vs
  {
    vs != [] ==> NoBytes(vs[0]) && NoBytesAll(vs[1..])
  }

  predicate NoBytesPairs(kvs: seq<KeyValue>)
    decreases kvs
  {
    kvs != [] ==> NoBytes(kvs[0].value) && NoBytesPairs(kvs[1..])
  }

  lemma {:induction false} ArraysExactly(t: Tree, mem: Memory)
    requires Arrays(t) <= mem.Keys && Fits(mem)
    ensures Arrays(t) == {} <==> NoBytes(Content(t, mem))
    decreases t
  {
    match t {
      case List(Listed(ts)) => ArraysExactlyAll(ts, mem);
      case Pairs(Paired(items)) => ArraysExactlyPairs(items, mem);
      case _ =>
    }
  }

  lemma {:induction false} ArraysExactlyAll(ts: seq<Tree>, mem: Memory)
    requires ArraysAll(ts) <= mem.Keys && Fits(mem)
    ensures ArraysAll(ts) == {} <==> NoBytesAll(ContentAll(ts, mem))
    decreases ts
  {
    if ts != [] {
      ArraysExactly(ts[0], mem);
      ArraysExactlyAll(ts[1..], mem);
      assert ContentAll(ts, mem)[1..] == ContentAll(ts[1..], mem);
    }
  }

  lemma {:induction false} ArraysExactlyPairs(items: seq<Item>, mem: Memory)
    requires ArraysPairs(items) <= mem.Keys && Fits(mem)
    ensures ArraysPairs(items) == {} <==> NoBytesPairs(ContentPairs(items, mem))
    decreases items
  {
    if items != [] {
      ArraysExactly(items[0].tree, mem);
      ArraysExactlyPairs(items[1..], mem);
      assert ContentPairs(items, mem)[1..] == ContentPairs(items[1..], mem);
    }
  }

  // ----- what a cell holds

  /** The cell holds the tree t, and every list and pair object of it lies in fp. */
  ghost predicate Holds(c: Cell, t: Tree, fp: set<object>)
    reads fp
    decreases t, 1
  {
    match t
    case Leaf(v) => c == Scalar(v)
    case Bytes(a) => c == BytesRef(a)
    case List(NilList) => c == ArrayRef(null)
    case List(Listed(ts)) =>
      c.ArrayRef? && c.list != null && c.list in fp && c.list.Values.arr in fp && HoldsAll(c.list.Values, ts, fp)
    case Pairs(NilPairs) => c == KvlistRef(null)
    case Pairs(Paired(items)) =>
      && c.KvlistRef? && c.pairs != null && c.pairs in fp && c.pairs.Values.arr in fp
      && HoldsPairs(c.pairs.Values, items, fp)
  }

  ghost predicate HoldsList(p: ArrayObj, ts: seq<Tree>, fp: set<object>)
    reads fp
  {
    p in fp && p.Values.arr in fp && HoldsAll(p.Values, ts, fp)
  }

  ghost predicate HoldsKvlist(p: KvlistObj, items: seq<Item>, fp: set<object>)
    reads fp
  {
    p in fp && p.Values.arr in fp && HoldsPairs(p.Values, items, fp)
  }

  ghost predicate HoldsAll(s: Slice<Cell>, ts: seq<Tree>, fp: set<object>)
    reads fp, s.arr
    decreases ts, 0
  {
    && s.len == |ts| <= s.arr.Length
    && forall i :: 0 <= i < |ts| ==> Holds(s.arr[i], ts[i], fp)
  }

  ghost predicate HoldsPair(p: Pair, item: Item, fp: set<object>)
    reads fp
    decreases item, 0
  {
    p.key == item.key && p.keyStrindex == item.keyStrindex && Holds(p.value, item.tree, fp)
  }

  ghost predicate HoldsPairs(s: Slice<Pair>, items: seq<Item>, fp: set<object>)
    reads fp, s.arr
    decreases items, 0
  {
    && s.len == |items| <= s.arr.Length
    && forall i :: 0 <= i < |items| ==> HoldsPair(s.arr[i], items[i], fp)
  }

  lemma {:induction false} HoldsGrows(c: Cell, t: Tree, fp: set<object>, more: set<object>)
    requires Holds(c, t, fp) && fp <= more
    ensures Holds(c, t, more)
    decreases t
  {
    match t {
      case List(Listed(ts)) =>
        forall i | 0 <= i < |ts| ensures Holds(c.list.Values.arr[i], ts[i], more) {
          HoldsGrows(c.list.Values.arr[i], ts[i], fp, more);
        }
      case Pairs(Paired(items)) =>
        forall i | 0 <= i < |items| ensures HoldsPair(c.pairs.Values.arr[i], items[i], more) {
          assert HoldsPair(c.pairs.Values.arr[i], items[i], fp);
          HoldsGrows(c.pairs.Values.arr[i].value, items[i].tree, fp, more);
        }
      case _ =>
    }
  }

  /** A cell holds at most one tree. */
  lemma {:induction false} HoldsUnique(c: Cell, t: Tree, u: Tree, fp: set<object>)
    requires Holds(c, t, fp) && Holds(c, u, fp)
    ensures t == u
    decreases t
  {
    if c.ArrayRef? && c.list != null {
      var ts, us := t.list.trees, u.list.trees;
      forall i | 0 <= i < |ts| ensures ts[i] == us[i] {
        HoldsUnique(c.list.Values.arr[i], ts[i], us[i], fp);
      }
      assert ts == us;
    } else if c.KvlistRef? && c.pairs != null {
      var ts, us := t.pairs.items, u.pairs.items;
      forall i | 0 <= i < |ts| ensures ts[i] == us[i] {
        var p := c.pairs.Values.arr[i];
        assert HoldsPair(p, ts[i], fp) && HoldsPair(p, us[i], fp);
        HoldsUnique(p.value, ts[i].tree, us[i].tree, fp);
      }
      assert ts == us;
    }
  }

  // ----- what a copy holds

  /** The tree of a copy: a nil inner pointer has become an empty list; the byte arrays are the same. */
  function Filled(t: Tree): Tree
    decreases t
  {
    match t
    case List(NilList) => List(Listed([]))
    case List(Listed(ts)) => List(Listed(FilledAll(ts)))
    case Pairs(NilPairs) => Pairs(Paired([]))
    case Pairs(Paired(items)) => Pairs(Paired(FilledPairs(items)))
    case _ => t
  }

  function FilledAll(ts: seq<Tree>): (us: seq<Tree>)
    ensures |us| == |ts| && forall i :: 0 <= i < |ts| ==> us[i] == Filled(ts[i])
    decreases ts
  {
    if ts == [] then [] else [Filled(ts[0])] + FilledAll(ts[1..])
  }

  function FilledItem(item: Item): Item
    decreases item, 0
  {
    item.(tree := Filled(item.tree))
  }

  function FilledPairs(items: seq<Item>): (us: seq<Item>)
    ensures |us| == |items| && forall i :: 0 <= i < |items| ==> us[i] == FilledItem(items[i])
    decreases items
  {
    if items == [] then [] else [FilledItem(items[0])] + FilledPairs(items[1..])
  }

  /** The same on values. */
  function FillNil(v: AnyValue): AnyValue
    decreases v
  {
    match v
    case ArrayValue(NilArray) => ArrayValue(Array([]))
    case ArrayValue(Array(vs)) => ArrayValue(Array(FillNilArray(vs)))
    case KvlistValue(NilKvlist) => KvlistValue(Kvlist([]))
    case KvlistValue(Kvlist(kvs)) => KvlistValue(Kvlist(FillNilKvlist(kvs)))
    case _ => v
  }

  function FillNilArray(vs: seq<AnyValue>): seq<AnyValue>
    decreases vs
  {
    if vs == [] then [] else [FillNil(vs[0])] + FillNilArray(vs[1..])
  }

  function FillNilKvlist(kvs: seq<KeyValue>): seq<KeyValue>
    decreases kvs
  {
    if kvs == [] then [] else [kvs[0].(value := FillNil(kvs[0].value))] + FillNilKvlist(kvs[1..])
  }

  /** A copy uses the byte arrays of its source, all of them and no others, and holds its value but for nil pointers. */
  lemma {:induction false} CopyShares(t: Tree, mem: Memory)
    requires Arrays(t) <= mem.Keys
    ensures Arrays(Filled(t)) == Arrays(t) && Content(Filled(t), mem) == FillNil(Content(t, mem))
    decreases t
  {
    match t {
      case List(Listed(ts)) => CopySharesAll(ts, mem);
      case Pairs(Paired(items)) => CopySharesPairs(items, mem);
      case _ =>
    }
  }

  lemma {:induction false} CopySharesAll(ts: seq<Tree>, mem: Memory)
    requires ArraysAll(ts) <= mem.Keys
    ensures ArraysAll(FilledAll(ts)) == ArraysAll(ts)
    ensures ContentAll(FilledAll(ts), mem) == FillNilArray(ContentAll(ts, mem))
    decreases ts
  {
    if ts != [] {
      CopyShares(ts[0], mem);
      CopySharesAll(ts[1..], mem);
      assert FilledAll(ts)[1..] == FilledAll(ts[1..]);
      assert ContentAll(ts, mem)[1..] == ContentAll(ts[1..], mem);
    }
  }

  lemma {:induction false} CopySharesPairs(items: seq<Item>, mem: Memory)
    requires ArraysPairs(items) <= mem.Keys
    ensures ArraysPairs(FilledPairs(items)) == ArraysPairs(items)
    ensures ContentPairs(FilledPairs(items), mem) == FillNilKvlist(ContentPairs(items, mem))
    decreases items
  {
    if items != [] {
      CopyShares(items[0].tree, mem);
      CopySharesPairs(items[1..], mem);
      assert FilledPairs(items)[1..] == FilledPairs(items[1..]);
      assert ContentPairs(items, mem)[1..] == ContentPairs(items[1..], mem);
    }
  }

  /** A copy holds the same value exactly when the source holds no nil inner pointer. */
  lemma {:induction false} CopyIsFaithful(v: AnyValue)
    ensures FillNil(v) == v <==> NoNil(v)
    decreases v
  {
    match v {
      case ArrayValue(Array(vs)) => CopyIsFaithfulArray(vs);
      case KvlistValue(Kvlist(kvs)) => CopyIsFaithfulKvlist(kvs);
      case _ =>
    }
  }

  lemma {:induction false} CopyIsFaithfulArray(vs: seq<AnyValue>)
    ensures FillNilArray(vs) == vs <==> NoNilArray(vs)
    decreases vs
  {
    if vs != [] {
      CopyIsFaithful(vs[0]);
      CopyIsFaithfulArray(vs[1..]);
      assert vs == [vs[0]] + vs[1..];
      assert FillNilArray(vs)[0] == FillNil(vs[0]) && FillNilArray(vs)[1..] == FillNilArray(vs[1..]);
    }
  }

  lemma {:induction false} CopyIsFaithfulKvlist(kvs: seq<KeyValue>)
    ensures FillNilKvlist(kvs) == kvs <==> NoNilKvlist(kvs)
    decreases kvs
  {
    if kvs != [] {
      CopyIsFaithful(kvs[0].value);
      CopyIsFaithfulKvlist(kvs[1..]);
      assert kvs == [kvs[0]] + kvs[1..];
      assert FillNilKvlist(kvs)[0].value == FillNil(kvs[0].value) && FillNilKvlist(kvs)[1..] == FillNilKvlist(kvs[1..]);
    }
  }

  /** One for which it does not: a nil array pointer comes out as an empty array. */
  lemma NilArrayFilled()
    ensures FillNil(ArrayValue(NilArray)) == ArrayValue(Array([])) != ArrayValue(NilArray)
  {
  }

  lemma {:induction false} FilledFixes(t: Tree, mem: Memory)
    requires Arrays(t) <= mem.Keys
    ensures Filled(t) == t <==> NoNil(Content(t, mem))
    decreases t
  {
    match t {
      case List(Listed(ts)) => FilledFixesAll(ts, mem);
      case Pairs(Paired(items)) => FilledFixesPairs(items, mem);
      case _ =>
    }
  }

  lemma {:induction false} FilledFixesAll(ts: seq<Tree>, mem: Memory)
    requires ArraysAll(ts) <= mem.Keys
    ensures FilledAll(ts) == ts <==> NoNilArray(ContentAll(ts, mem))
    decreases ts
  {
    if ts != [] {
      FilledFixes(ts[0], mem);
      FilledFixesAll(ts[1..], mem);
      assert ts == [ts[0]] + ts[1..];
      assert FilledAll(ts)[0] == Filled(ts[0]) && FilledAll(ts)[1..] == FilledAll(ts[1..]);
      assert ContentAll(ts, mem)[1..] == ContentAll(ts[1..], mem);
    }
  }

  lemma {:induction false} FilledFixesPairs(items: seq<Item>, mem: Memory)
    requires ArraysPairs(items) <= mem.Keys
    ensures FilledPairs(items) == items <==> NoNilKvlist(ContentPairs(items, mem))
    decreases items
  {
    if items != [] {
      FilledFixes(items[0].tree, mem);
      FilledFixesPairs(items[1..], mem);
      assert items == [items[0]] + items[1..];
      assert FilledPairs(items)[0] == FilledItem(items[0]) && FilledPairs(items)[1..] == FilledPairs(items[1..]);
      assert ContentPairs(items, mem)[1..] == ContentPairs(items[1..], mem);
    }
  }

  /** Writing to a byte array shows in the value of a tree if and only if it is an array of the tree. */
  lemma {:induction false} WriteShows(t: Tree, mem: Memory, a: array<Byte>, bytes: seq<Byte>)
    requires Arrays(t) <= mem.Keys && a in mem && bytes != mem[a]
    ensures Content(t, mem[a := bytes]) != Content(t, mem) <==> a in Arrays(t)
    decreases t
  {
    match t {
      case List(Listed(ts)) => WriteShowsAll(ts, mem, a, bytes);
      case Pairs(Paired(items)) => WriteShowsPairs(items, mem, a, bytes);
      case _ =>
    }
  }

  lemma {:induction false} WriteShowsAll(ts: seq<Tree>, mem: Memory, a: array<Byte>, bytes: seq<Byte>)
    requires ArraysAll(ts) <= mem.Keys && a in mem && bytes != mem[a]
    ensures ContentAll(ts, mem[a := bytes]) != ContentAll(ts, mem) <==> a in ArraysAll(ts)
    decreases ts
  {
    if ts != [] {
      WriteShows(ts[0], mem, a, bytes);
      WriteShowsAll(ts[1..], mem, a, bytes);
      var now, was := ContentAll(ts, mem[a := bytes]), ContentAll(ts, mem);
      assert now[1..] == ContentAll(ts[1..], mem[a := bytes]) && was[1..] == ContentAll(ts[1..], mem);
      assert now[0] == Content(ts[0], mem[a := bytes]) && was[0] == Content(ts[0], mem);
    }
  }

  lemma {:induction false} WriteShowsPairs(items: seq<Item>, mem: Memory, a: array<Byte>, bytes: seq<Byte>)
    requires ArraysPairs(items) <= mem.Keys && a in mem && bytes != mem[a]
    ensures ContentPairs(items, mem[a := bytes]) != ContentPairs(items, mem) <==> a in ArraysPairs(items)
    decreases items
  {
    if items != [] {
      WriteShows(items[0].tree, mem, a, bytes);
      WriteShowsPairs(items[1..], mem, a, bytes);
      var now, was := ContentPairs(items, mem[a := bytes]), ContentPairs(items, mem);
      assert now[1..] == ContentPairs(items[1..], mem[a := bytes]) && was[1..] == ContentPairs(items[1..], mem);
      assert now[0].value == Content(items[0].tree, mem[a := bytes]) && was[0].value == Content(items[0].tree, mem);
    }
  }

  /** So a write that shows in a copy shows in its source, and the other way round. */
  lemma WriteShowsInBoth(t: Tree, mem: Memory, a: array<Byte>, bytes: seq<Byte>)
    requires Arrays(t) <= mem.Keys && a in mem && bytes != mem[a]
    ensures Arrays(Filled(t)) == Arrays(t)
    ensures Content(Filled(t), mem[a := bytes]) != Content(Filled(t), mem)
            <==> Content(t, mem[a := bytes]) != Content(t, mem)
  {
    CopyShares(t, mem);
    WriteShows(t, mem, a, bytes);
    WriteShows(Filled(t), mem, a, bytes);
  }

  // ----- when a copy is independent of its source

  /** Two trees whose lists and pairs lie in own and fp have no object in common. */
  ghost predicate Independent(own: set<object>, copy: Tree, fp: set<object>, t: Tree) {
    own + Arrays(copy) !! fp + Arrays(t)
  }

  ghost predicate IndependentAll(own: set<object>, copies: seq<Tree>, fp: set<object>, ts: seq<Tree>) {
    own + ArraysAll(copies) !! fp + ArraysAll(ts)
  }

  ghost predicate IndependentPairs(own: set<object>, copies: seq<Item>, fp: set<object>, items: seq<Item>) {
    own + ArraysPairs(copies) !! fp + ArraysPairs(items)
  }

  lemma IndependentExactly(own: set<object>, fp: set<object>, t: Tree)
    requires own !! fp + Arrays(t)
    ensures Independent(own, Filled(t), fp, t) <==> NoBytes(Content(t, Now(Arrays(t))))
  {
    CopyShares(t, Now(Arrays(t)));
    ArraysExactly(t, Now(Arrays(t)));
  }

  /** Some of the trees are copied. */
  lemma IndependentAllExactly(own: set<object>, fp: set<object>, some: seq<Tree>, ts: seq<Tree>)
    requires own !! fp + ArraysAll(ts) && ArraysAll(some) <= ArraysAll(ts)
    ensures IndependentAll(own, FilledAll(some), fp, ts) <==> NoBytesAll(ContentAll(some, Now(ArraysAll(some))))
  {
    CopySharesAll(some, Now(ArraysAll(some)));
    ArraysExactlyAll(some, Now(ArraysAll(some)));
    if ArraysAll(some) != {} {
      var a :| a in ArraysAll(some);
      assert a in own + ArraysAll(FilledAll(some)) && a in fp + ArraysAll(ts);
    }
  }

  lemma IndependentPairsExactly(own: set<object>, fp: set<object>, items: seq<Item>)
    requires own !! fp + ArraysPairs(items)
    ensures IndependentPairs(own, FilledPairs(items), fp, items)
            <==> NoBytesPairs(ContentPairs(items, Now(ArraysPairs(items))))
  {
    CopySharesPairs(items, Now(ArraysPairs(items)));
    ArraysExactlyPairs(items, Now(ArraysPairs(items)));
  }

  // ----- copying

  /** The content CopyAnyValue gives its destination: lists and pairs of its own, in new objects, and the byte arrays
      of the source. */
  method CopyCell(src: Cell, ghost t: Tree, ghost fp: set<object>) returns (value: Cell, ghost own: set<object>)
    requires Holds(src, t, fp)
    ensures fresh(own) && Holds(value, Filled(t), own)
    decreases t, 2
  {
    match src {
      case Scalar(s) =>
        value, own := Scalar(s), {};
      case BytesRef(bytes) =>
        value, own := BytesRef(bytes), {};
      case ArrayRef(p) =>
        value, own := CopyListCell(p, t, fp);
      case KvlistRef(p) =>
        value, own := CopyPairsCell(p, t, fp);
    }
  }

  method CopyListCell(p: ArrayObj?, ghost t: Tree, ghost fp: set<object>) returns (value: Cell, ghost own: set<object>)
    requires Holds(ArrayRef(p), t, fp)
    ensures fresh(own) && Holds(value, Filled(t), own)
    decreases t, 1
  {
    var empty := new Cell[0](_ => EMPTY);
    var obj := new ArrayObj(Slice(empty, 0));
    own := {obj, empty};
    if p != null {
      ghost var ts := t.list.trees;
      var _, inner := CopyArrayValue(obj, p, ts, fp);
      own := inner + {obj, obj.Values.arr};
      forall i | 0 <= i < |ts| ensures Holds(obj.Values.arr[i], Filled(ts[i]), own) {
        HoldsGrows(obj.Values.arr[i], FilledAll(ts)[i], inner, own);
      }
    }
    value := ArrayRef(obj);
  }

  method CopyPairsCell(p: KvlistObj?, ghost t: Tree, ghost fp: set<object>)
    returns (value: Cell, ghost own: set<object>)
    requires Holds(KvlistRef(p), t, fp)
    ensures fresh(own) && Holds(value, Filled(t), own)
    decreases t, 1
  {
    var empty := new Pair[0](_ => EMPTY_PAIR);
    var obj := new KvlistObj(Slice(empty, 0));
    own := {obj, empty};
    if p != null {
      ghost var items := t.pairs.items;
      var _, inner := CopyKeyValueList(obj, p, items, fp);
      own := inner + {obj, obj.Values.arr};
      forall i | 0 <= i < |items| ensures HoldsPair(obj.Values.arr[i], FilledItem(items[i]), own) {
        assert HoldsPair(obj.Values.arr[i], FilledPairs(items)[i], inner);
        HoldsGrows(obj.Values.arr[i].value, Filled(items[i].tree), inner, own);
      }
    }
    value := KvlistRef(obj);
  }

  /** The same object and a nil source change nothing; otherwise the destination, or a new object, holds copies of the
      values, in its own array if that is large enough. */
  method CopyArrayValue(dest: ArrayObj?, src: ArrayObj?, ghost ts: seq<Tree>, ghost fp: set<object>)
    returns (r: ArrayObj?, ghost own: set<object>)
    requires src != null ==> HoldsList(src, ts, fp)
    requires dest != null ==> dest.Values.len <= dest.Values.arr.Length
    requires dest != null && dest != src ==> dest !in fp && dest.Values.arr !in fp
    modifies dest, if dest == null then {} else {dest.Values.arr}
    ensures fresh(own) && (src == dest || src == null ==> r == src)
    ensures (src == dest || src == null) && dest != null ==>
      dest.Values == old(dest.Values) && dest.Values.arr[..] == old(dest.Values.arr[..])
    ensures src != null && src != dest ==>
      && r != null && (if dest == null then fresh(r) else r == dest)
      && HoldsAll(r.Values, FilledAll(ts), own) && r !in own && r.Values.arr !in own
      && (if dest != null && |ts| <= old(dest.Values.arr.Length) then r.Values.arr == old(dest.Values.arr)
          else fresh(r.Values.arr))
    decreases ts, 2
  {
    r, own := dest, {};
    if src == dest {
      return;
    }
    if src == null {
      return null, own;
    }
    if dest == null {
      var empty := new Cell[0](_ => EMPTY);
      r := new ArrayObj(Slice(empty, 0));
    }
    var values, inner := CopyAnyValueSlice(r.Values, src.Values, ts, fp);
    r.Values := values;
    own := inner;
  }

  method CopyKeyValueList(dest: KvlistObj?, src: KvlistObj?, ghost items: seq<Item>, ghost fp: set<object>)
    returns (r: KvlistObj?, ghost own: set<object>)
    requires src != null ==> HoldsKvlist(src, items, fp)
    requires dest != null ==> dest.Values.len <= dest.Values.arr.Length
    requires dest != null && dest != src ==> dest !in fp && dest.Values.arr !in fp
    modifies dest, if dest == null then {} else {dest.Values.arr}
    ensures fresh(own) && (src == dest || src == null ==> r == src)
    ensures (src == dest || src == null) && dest != null ==>
      dest.Values == old(dest.Values) && dest.Values.arr[..] == old(dest.Values.arr[..])
    ensures src != null && src != dest ==>
      && r != null && (if dest == null then fresh(r) else r == dest)
      && HoldsPairs(r.Values, FilledPairs(items), own) && r !in own && r.Values.arr !in own
      && (if dest != null && |items| <= old(dest.Values.arr.Length) then r.Values.arr == old(dest.Values.arr)
          else fresh(r.Values.arr))
    decreases items, 2
  {
    r, own := dest, {};
    if src == dest {
      return;
    }
    if src == null {
      return null, own;
    }
    if dest == null {
      var empty := new Pair[0](_ => EMPTY_PAIR);
      r := new KvlistObj(Slice(empty, 0));
    }
    var values, inner := CopyKeyValueSlice(r.Values, src.Values, items, fp);
    r.Values := values;
    own := inner;
  }

  /** Elements past the new length are reset up to the old length; the spare capacity is left alone. */
  ghost predicate Cleared<T>(dest: Slice<T>, from: nat, was: seq<T>, zero: T)
    requires |was| == dest.arr.Length
    reads dest.arr
  {
    forall j :: from <= j < dest.arr.Length ==> dest.arr[j] == if j < dest.len then zero else was[j]
  }

  method Clear<T>(dest: Slice<T>, from: nat, zero: T)
    requires dest.len <= dest.arr.Length
    modifies dest.arr
    ensures Cleared(dest, from, old(dest.arr[..]), zero)
    ensures forall j :: 0 <= j < from && j < dest.arr.Length ==> dest.arr[j] == old(dest.arr[j])
  {
    var i := from;
    while i < dest.len
      invariant from <= i && (from < i ==> i <= dest.len)
      invariant forall j :: from <= j < i && j < dest.arr.Length ==> dest.arr[j] == zero
      invariant forall j :: (0 <= j < from || i <= j) && j < dest.arr.Length ==> dest.arr[j] == old(dest.arr[j])
    {
      dest.arr[i] := zero;
      i := i + 1;
    }
  }

  method CopyAnyValueSlice(dest: Slice<Cell>, src: Slice<Cell>, ghost ts: seq<Tree>, ghost fp: set<object>)
    returns (r: Slice<Cell>, ghost own: set<object>)
    requires dest.len <= dest.arr.Length && dest.arr != src.arr && dest.arr !in fp
    requires HoldsAll(src, ts, fp)
    modifies dest.arr
    ensures fresh(own) && r.arr !in own
    ensures if dest.arr.Length < src.len then fresh(r.arr) && r.arr.Length == src.len else r.arr == dest.arr
    ensures HoldsAll(r, FilledAll(ts), own)
    ensures r.arr == dest.arr ==> Cleared(dest, src.len, old(dest.arr[..]), EMPTY)
    ensures HoldsAll(src, ts, fp)
    ensures IndependentAll(own, FilledAll(ts), fp, ts) <==> NoBytesAll(ContentAll(ts, Now(ArraysAll(ts))))
    decreases ts, 1
  {
    ghost var arrays: set<object> := ArraysAll(ts);
    ArraysAllAllocated(ts);
    if dest.arr.Length < src.len {
      var made := new Cell[src.len](_ => EMPTY);
      r := Slice(made, src.len);
    } else {
      r := Slice(dest.arr, src.len);
      Clear(dest, src.len, EMPTY);
    }
    own := CopyCells(r, src, ts, fp);
    assert own !! arrays && own !! fp;
    IndependentAllExactly(own, fp, ts, ts);
  }

  /** The loop over the elements. */
  method CopyCells(r: Slice<Cell>, src: Slice<Cell>, ghost ts: seq<Tree>, ghost fp: set<object>)
    returns (ghost own: set<object>)
    requires r.len == src.len <= r.arr.Length && r.arr != src.arr && r.arr !in fp
    requires HoldsAll(src, ts, fp)
    modifies r.arr
    ensures fresh(own) && r.arr !in own && HoldsAll(r, FilledAll(ts), own)
    ensures forall j :: r.len <= j < r.arr.Length ==> r.arr[j] == old(r.arr[j])
    decreases ts, 0
  {
    own := {};
    for i := 0 to src.len
      invariant forall j :: r.len <= j < r.arr.Length ==> r.arr[j] == old(r.arr[j])
      invariant fresh(own) && r.arr !in own
      invariant forall j :: 0 <= j < i ==> Holds(r.arr[j], Filled(ts[j]), own)
    {
      assert Holds(src.arr[i], ts[i], fp);
      var value, inner := CopyCell(src.arr[i], ts[i], fp);
      ghost var all := own + inner;
      forall j | 0 <= j < i ensures Holds(r.arr[j], Filled(ts[j]), all) {
        HoldsGrows(r.arr[j], Filled(ts[j]), own, all);
      }
      HoldsGrows(value, Filled(ts[i]), inner, all);
      r.arr[i] := value;
      own := all;
    }
  }

  method CopyKeyValueSlice(dest: Slice<Pair>, src: Slice<Pair>, ghost items: seq<Item>, ghost fp: set<object>)
    returns (r: Slice<Pair>, ghost own: set<object>)
    requires dest.len <= dest.arr.Length && dest.arr != src.arr && dest.arr !in fp
    requires HoldsPairs(src, items, fp)
    modifies dest.arr
    ensures fresh(own) && r.arr !in own
    ensures if dest.arr.Length < src.len then fresh(r.arr) && r.arr.Length == src.len else r.arr == dest.arr
    ensures HoldsPairs(r, FilledPairs(items), own)
    ensures r.arr == dest.arr ==> Cleared(dest, src.len, old(dest.arr[..]), EMPTY_PAIR)
    ensures HoldsPairs(src, items, fp)
    ensures IndependentPairs(own, FilledPairs(items), fp, items)
            <==> NoBytesPairs(ContentPairs(items, Now(ArraysPairs(items))))
    decreases items, 1
  {
    ghost var arrays: set<object> := ArraysPairs(items);
    ArraysPairsAllocated(items);
    if dest.arr.Length < src.len {
      var made := new Pair[src.len](_ => EMPTY_PAIR);
      r := Slice(made, src.len);
    } else {
      r := Slice(dest.arr, src.len);
      Clear(dest, src.len, EMPTY_PAIR);
    }
    own := CopyPairs(r, src, items, fp);
    assert own !! arrays && own !! fp;
    IndependentPairsExactly(own, fp, items);
  }

  method CopyPairs(r: Slice<Pair>, src: Slice<Pair>, ghost items: seq<Item>, ghost fp: set<object>)
    returns (ghost own: set<object>)
    requires r.len == src.len <= r.arr.Length && r.arr != src.arr && r.arr !in fp
    requires HoldsPairs(src, items, fp)
    modifies r.arr
    ensures fresh(own) && r.arr !in own && HoldsPairs(r, FilledPairs(items), own)
    ensures forall j :: r.len <= j < r.arr.Length ==> r.arr[j] == old(r.arr[j])
    decreases items, 0
  {
    own := {};
    for i := 0 to src.len
      invariant forall j :: r.len <= j < r.arr.Length ==> r.arr[j] == old(r.arr[j])
      invariant fresh(own) && r.arr !in own
      invariant forall j :: 0 <= j < i ==> HoldsPair(r.arr[j], FilledItem(items[j]), own)
    {
      assert HoldsPair(src.arr[i], items[i], fp);
      var value, inner := CopyCell(src.arr[i].value, items[i].tree, fp);
      ghost var all := own + inner;
      forall j | 0 <= j < i ensures HoldsPair(r.arr[j], FilledItem(items[j]), all) {
        HoldsGrows(r.arr[j].value, Filled(items[j].tree), own, all);
      }
      HoldsGrows(value, Filled(items[i].tree), inner, all);
      r.arr[i] := Pair(src.arr[i].key, value, src.arr[i].keyStrindex);
      own := all;
    }
  }

  // ----- slices of pointers

  /** p and t are both nil, or p points to an AnyValue that holds t. */
  ghost predicate Points(p: AnyObj?, t: Option<Tree>, fp: set<object>)
    reads fp, p
  {
    if p == null then t.None? else t.Some? && Holds(p.Value, t.value, fp)
  }

  method CopyAnyValue(dest: AnyObj?, src: AnyObj?, ghost t: Option<Tree>, ghost fp: set<object>)
    returns (r: AnyObj?, ghost own: set<object>)
    requires Points(src, t, fp) && dest !in fp
    modifies dest
    ensures fresh(own)
    ensures src == dest ==> r == dest && (dest != null ==> dest.Value == old(dest.Value))
    ensures src == null ==> r == null && (dest != null ==> dest.Value == old(dest.Value))
    ensures src != null && dest == null ==> fresh(r)
    ensures src != null && dest != null ==> r == dest
    ensures src != null && src != dest ==> r !in own && Holds(r.Value, Filled(t.value), own)
    ensures src != null && src != dest ==>
      (Independent(own, Filled(t.value), fp, t.value) <==> NoBytes(Content(t.value, Now(Arrays(t.value)))))
  {
    r, own := dest, {};
    if src == dest {
      return;
    }
    if src == null {
      return null, own;
    }
    if dest == null {
      r := new AnyObj();
    }
    ghost var arrays: set<object> := Arrays(t.value);
    ArraysAllocated(t.value);
    var value, inner := CopyCell(src.Value, t.value, fp);
    own := inner;
    r.Value := value;
    assert own !! arrays && own !! fp;
    IndependentExactly(own, fp, t.value);
  }

  /** Writing a byte of a byte string through the AnyValue that holds it. */
  method SetAt(o: AnyObj, i: nat, b: Byte)
    requires o.Value.BytesRef? && i < o.Value.bytes.Length
    modifies o.Value.bytes
    ensures o.Value.bytes[..] == old(o.Value.bytes[..])[i := b]
  {
    o.Value.bytes[i] := b;
  }

  /** A byte string of one byte is copied, and the byte of the copy is written: the source changes. */
  method SharedBytesShow() returns (before: seq<Byte>, after: seq<Byte>)
    ensures before == [0] && after == [1]
  {
    var bytes := new Byte[1](_ => 0);
    var src := new AnyObj();
    src.Value := BytesRef(bytes);
    before := src.Value.bytes[..];
    var copy, _ := CopyAnyValue(null, src, Some(Bytes(bytes)), {});
    SetAt(copy, 0, 1);
    after := src.Value.bytes[..];
  }

  /** The objects a slice of pointers points to. */
  ghost function Targets(s: Slice<AnyObj?>): set<AnyObj>
    requires s.len <= s.arr.Length
    reads s.arr
  {
    set i | 0 <= i < s.len && s.arr[i] != null :: s.arr[i]
  }

  ghost predicate Distinct(ps: seq<AnyObj?>) {
    forall i, j :: 0 <= i < j < |ps| ==> ps[i] == null || ps[i] != ps[j]
  }

  ghost predicate PointsAll(ps: seq<AnyObj?>, ts: seq<Option<Tree>>, fp: set<object>)
    reads fp, ps
  {
    |ps| == |ts| && forall i :: 0 <= i < |ts| ==> Points(ps[i], ts[i], fp)
  }

  /** The pointers of the result: those of the destination as far as it reached, then new ones. */
  method ReusePointers(dest: Slice<AnyObj?>, n: nat) returns (r: Slice<AnyObj?>)
    requires dest.len <= dest.arr.Length && Distinct(dest.arr[..dest.len])
    modifies dest.arr, Targets(dest)
    ensures r.len == n <= r.arr.Length
    ensures if dest.arr.Length < n then fresh(r.arr) else r.arr == dest.arr
    ensures forall i :: 0 <= i < n && i < dest.len ==>
              r.arr[i] == old(dest.arr[i]) && (r.arr[i] != null ==> r.arr[i].Value == old(dest.arr[i].Value))
    ensures forall i :: dest.len <= i < n ==> r.arr[i] != null && fresh(r.arr[i]) && r.arr[i].Value == EMPTY
    ensures Distinct(r.arr[..n])
    ensures n <= dest.arr.Length ==> forall i :: n <= i < dest.len ==>
              dest.arr[i] == null && (old(dest.arr[i]) != null ==> old(dest.arr[i]).Value == EMPTY)
  {
    if dest.arr.Length < n {
      var made := new AnyObj?[n](_ => null);
      forall i | 0 <= i < dest.len {
        made[i] := dest.arr[i];
      }
      r := Slice(made, n);
    } else {
      r := Slice(dest.arr, n);
      var i := n;
      while i < dest.len
        modifies dest.arr, Targets(dest)
        invariant n <= i && (n < i ==> i <= dest.len)
        invariant forall j :: n <= j < i && j < dest.arr.Length ==>
                    dest.arr[j] == null && (old(dest.arr[j]) != null ==> old(dest.arr[j]).Value == EMPTY)
        invariant forall j :: (0 <= j < n || i <= j) && j < dest.arr.Length ==> dest.arr[j] == old(dest.arr[j])
        invariant forall j :: (0 <= j < n || i <= j) && j < dest.len && old(dest.arr[j]) != null ==>
                    old(dest.arr[j]).Value == old(dest.arr[j].Value)
      {
        if dest.arr[i] != null {
          dest.arr[i].Value := EMPTY;
        }
        dest.arr[i] := null;
        i := i + 1;
      }
    }
    FillFrom(r, dest.len);
  }

  method FillFrom(r: Slice<AnyObj?>, from: nat)
    requires r.len <= r.arr.Length
    requires Distinct(if from < r.len then r.arr[..from] else r.arr[..r.len])
    modifies r.arr
    ensures forall i :: 0 <= i < r.arr.Length && (i < from || r.len <= i) ==> r.arr[i] == old(r.arr[i])
    ensures forall i :: from <= i < r.len ==> r.arr[i] != null && fresh(r.arr[i]) && r.arr[i].Value == EMPTY
    ensures Distinct(r.arr[..r.len])
  {
    var i := from;
    while i < r.len
      invariant from <= i && (from < i ==> i <= r.len)
      invariant forall j :: 0 <= j < r.arr.Length && (j < from || i <= j) ==> r.arr[j] == old(r.arr[j])
      invariant forall j :: from <= j < i && j < r.arr.Length ==>
                  r.arr[j] != null && fresh(r.arr[j]) && r.arr[j].Value == EMPTY
      invariant i <= r.len ==> Distinct(r.arr[..i])
      invariant r.len <= from ==> r.arr[..] == old(r.arr[..])
    {
      var made := new AnyObj();
      r.arr[i] := made;
      i := i + 1;
    }
  }

  /** The slot after copying: a nil source element leaves it as it was, history included. */
  ghost predicate SlotCopied(p: AnyObj?, t: Option<Tree>, before: Cell, fp: set<object>)
    reads fp, p
  {
    p != null ==> if t.None? then p.Value == before else Holds(p.Value, Filled(t.value), fp)
  }

  /** So the slot ends up with what the source element holds, whatever it held before, exactly when
      neither pointer is nil and the source holds no nil inner pointer, or both pointers are nil. */
  lemma SlotFaithful(p: AnyObj?, t: Option<Tree>, before: Cell, fp: set<object>)
    requires SlotCopied(p, t, before, fp)
    ensures Points(p, t, fp) <==>
      if p == null then t.None? else t.Some? && NoNil(Content(t.value, Now(Arrays(t.value))))
  {
    if p != null && t.Some? {
      FilledFixes(t.value, Now(Arrays(t.value)));
      if Holds(p.Value, t.value, fp) {
        HoldsUnique(p.Value, t.value, Filled(t.value), fp);
      }
    }
  }

  /** The trees of the source elements that are not nil. */
  function Given(ts: seq<Option<Tree>>): seq<Tree> {
    if ts == [] then [] else (if ts[0].Some? then [ts[0].value] else []) + Given(ts[1..])
  }

  /** Those of them that go to a slot that is not nil. */
  function Taken(ps: seq<AnyObj?>, ts: seq<Option<Tree>>): seq<Tree>
    requires |ps| == |ts|
  {
    if ts == [] then []
    else (if ts[0].Some? && ps[0] != null then [ts[0].value] else []) + Taken(ps[1..], ts[1..])
  }

  lemma ArraysOfOne(t: Tree, ts: seq<Tree>)
    ensures ArraysAll([t] + ts) == Arrays(t) + ArraysAll(ts)
  {
    assert ([t] + ts)[1..] == ts;
  }

  lemma {:induction false} TakenAreGiven(ps: seq<AnyObj?>, ts: seq<Option<Tree>>)
    requires |ps| == |ts|
    ensures ArraysAll(Taken(ps, ts)) <= ArraysAll(Given(ts))
    decreases ts
  {
    if ts != [] {
      TakenAreGiven(ps[1..], ts[1..]);
      assert [] + Taken(ps[1..], ts[1..]) == Taken(ps[1..], ts[1..]) && [] + Given(ts[1..]) == Given(ts[1..]);
      if ts[0].Some? {
        ArraysOfOne(ts[0].value, Given(ts[1..]));
        ArraysOfOne(ts[0].value, Taken(ps[1..], ts[1..]));
      }
    }
  }

  method CopyAnyValuePtrSlice(dest: Slice<AnyObj?>, src: Slice<AnyObj?>,
                              ghost ts: seq<Option<Tree>>, ghost fp: set<object>)
    returns (r: Slice<AnyObj?>, ghost own: set<object>)
    requires dest.len <= dest.arr.Length && Distinct(dest.arr[..dest.len])
    requires src.len <= src.arr.Length && PointsAll(src.arr[..src.len], ts, fp)
    requires dest.arr != src.arr && dest.arr !in fp && Targets(dest) !! fp && Targets(dest) !! Targets(src)
    modifies dest.arr, Targets(dest)
    ensures r.len == src.len <= r.arr.Length
    ensures if dest.arr.Length < src.len then fresh(r.arr) else r.arr == dest.arr
    ensures forall i :: 0 <= i < r.len && i < dest.len ==> r.arr[i] == old(dest.arr[i])
    ensures forall i :: dest.len <= i < r.len ==> r.arr[i] != null && fresh(r.arr[i])
    ensures fresh(own)
    ensures forall i :: 0 <= i < r.len ==>
              var before := if i < dest.len && old(dest.arr[i]) != null then old(dest.arr[i].Value) else EMPTY;
              SlotCopied(r.arr[i], ts[i], before, own)
    ensures PointsAll(src.arr[..src.len], ts, fp)
    ensures var taken := Taken(r.arr[..r.len], ts);
            IndependentAll(own, FilledAll(taken), fp, Given(ts))
            <==> NoBytesAll(ContentAll(taken, Now(ArraysAll(taken))))
  {
    ghost var arrays: set<object> := ArraysAll(Given(ts));
    ArraysAllAllocated(Given(ts));
    r := ReusePointers(dest, src.len);
    ghost var ps := r.arr[..r.len];
    forall j | 0 <= j < |ps| && ps[j] != null ensures fresh(ps[j]) || ps[j] in old(Targets(dest)) {
      assert j < dest.len ==> ps[j] == old(dest.arr[j]);
    }
    assert forall i :: 0 <= i < src.len && src.arr[i] != null ==> src.arr[i] in old(Targets(src));
    own := CopyEach(r.arr[..r.len], src.arr[..src.len], ts, fp);
    assert own !! arrays && own !! fp;
    TakenAreGiven(r.arr[..r.len], ts);
    IndependentAllExactly(own, fp, Taken(r.arr[..r.len], ts), Given(ts));
  }

  /** A nil element is copied onto an object that holds a value: the value stays. */
  method StaleContentStays() returns (after: Cell)
    ensures after == Scalar(BoolValue(true))
  {
    var obj := new AnyObj();
    obj.Value := Scalar(BoolValue(true));
    var dest, src := new AnyObj?[1](_ => obj), new AnyObj?[1](_ => null);
    assert dest[..1] == [obj] && src[..1] == [null];
    var r, _ := CopyAnyValuePtrSlice(Slice(dest, 1), Slice(src, 1), [None], {});
    after := r.arr[0].Value;
  }

  method CopyEach(ps: seq<AnyObj?>, qs: seq<AnyObj?>, ghost ts: seq<Option<Tree>>, ghost fp: set<object>)
    returns (ghost own: set<object>)
    requires |ps| == |qs| && Distinct(ps) && PointsAll(qs, ts, fp)
    requires forall p :: p in ps && p != null ==> p !in fp && p !in qs
    modifies ps
    ensures fresh(own)
    ensures forall j :: 0 <= j < |ps| ==>
              SlotCopied(ps[j], ts[j], if ps[j] != null then old(ps[j].Value) else EMPTY, own)
    ensures PointsAll(qs, ts, fp)
  {
    own := {};
    for i := 0 to |qs|
      invariant fresh(own) && PointsAll(qs, ts, fp)
      invariant forall j :: i <= j < |ps| && ps[j] != null ==> ps[j].Value == old(ps[j].Value)
      invariant forall j :: 0 <= j < i ==>
                  SlotCopied(ps[j], ts[j], if ps[j] != null then old(ps[j].Value) else EMPTY, own)
    {
      assert Points(qs[i], ts[i], fp) && ps[i] in ps;
      var _, inner := CopyAnyValue(ps[i], qs[i], ts[i], fp);
      ghost var all := own + inner;
      forall j | 0 <= j <= i
        ensures SlotCopied(ps[j], ts[j], if ps[j] != null then old(ps[j].Value) else EMPTY, all)
      {
        if ps[j] != null && ts[j].Some? {
          HoldsGrows(ps[j].Value, Filled(ts[j].value), if j < i then own else inner, all);
        }
      }
      own := all;
    }
  }
}
