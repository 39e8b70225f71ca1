/** The SMCube data element: a byte buffer laid out as items of typed values, and the copying
    of block ports in and out of it. */
module DataModel {
  import opened Basics
  import opened Bytes

  datatype ItemType = INT8 | INT16 | INT32 | UINT8 | UINT16 | UINT32 | REAL

  function TypeSize(t: ItemType): nat {
    match t
    case INT8 => 1 case INT16 => 2 case INT32 => 4
    case UINT8 => 1 case UINT16 => 2 case UINT32 => 4
    case REAL => 8
  }

  datatype Item = Item(itemType: ItemType, multiplicity: int)

  // the failure code has the value of the success code
  const RET_OK := 1
  const RET_FAIL := 1

  function ItemBytes(i: Item): int {
    TypeSize(i.itemType) * i.multiplicity
  }

  /** Where item `n` begins. */
  function Offset(items: seq<Item>, n: nat): int
    requires n <= |items|
  {
    if n == 0 then 0 else Offset(items, n - 1) + ItemBytes(items[n - 1])
  }

  ghost predicate NonNegative(items: seq<Item>) {
    forall i :: 0 <= i < |items| ==> items[i].multiplicity >= 0
  }

  predicate InBounds(items: seq<Item>, index: int, pos: int) {
    0 <= index < |items| && 0 <= pos < items[index].multiplicity
  }

  /** The first byte of value `pos` of item `index`, and the byte after its last. */
  function SlotStart(items: seq<Item>, index: int, pos: int): int
    requires InBounds(items, index, pos)
  {
    Offset(items, index) + pos * TypeSize(items[index].itemType)
  }

  function SlotEnd(items: seq<Item>, index: int, pos: int): int
    requires InBounds(items, index, pos)
  {
    SlotStart(items, index, pos) + TypeSize(items[index].itemType)
  }

  // ------------------------------------------------------------------------- the layout

  lemma ItemBytesAreNonNegative(i: Item)
    requires i.multiplicity >= 0
    ensures ItemBytes(i) >= 0 && (i.multiplicity == 0 ==> ItemBytes(i) == 0)
  {
    MulMono(0, i.multiplicity, TypeSize(i.itemType));
  }

  lemma {:induction false} OffsetsAscend(items: seq<Item>, i: nat, j: nat)
    requires NonNegative(items) && i <= j <= |items|
    ensures 0 <= Offset(items, i) <= Offset(items, j)
    ensures i < j ==> Offset(items, i) + ItemBytes(items[i]) <= Offset(items, j)
    decreases j
  {
    if j == 0 {
    } else {
      ItemBytesAreNonNegative(items[j - 1]);
      OffsetsAscend(items, if i < j then i else j - 1, j - 1);
    }
  }

  /** A slot lies within its item. */
  lemma SlotWithinItem(items: seq<Item>, index: int, pos: int)
    requires NonNegative(items) && InBounds(items, index, pos)
    ensures Offset(items, index) <= SlotStart(items, index, pos) < SlotEnd(items, index, pos)
    ensures SlotEnd(items, index, pos) <= Offset(items, index + 1)
  {
    MulMono(pos + 1, items[index].multiplicity, TypeSize(items[index].itemType));
    MulMono(0, pos, TypeSize(items[index].itemType));
  }

  /** A slot lies within the buffer: the assertion in the offset computation cannot fail. */
  lemma SlotWithinData(items: seq<Item>, index: int, pos: int)
    requires NonNegative(items) && InBounds(items, index, pos)
    ensures 0 <= SlotStart(items, index, pos) < SlotEnd(items, index, pos) <= Offset(items, |items|)
  {
    SlotWithinItem(items, index, pos);
    OffsetsAscend(items, 0, index);
    OffsetsAscend(items, index + 1, |items|);
  }

  /** Slots stand in the order of their items, and within an item in the order of its values. */
  lemma SlotsAscend(items: seq<Item>, i: int, p: int, j: int, q: int)
    requires NonNegative(items) && InBounds(items, i, p) && InBounds(items, j, q)
    requires i < j || (i == j && p < q)
    ensures SlotEnd(items, i, p) <= SlotStart(items, j, q)
  {
    SlotWithinItem(items, i, p);
    SlotWithinItem(items, j, q);
    if i < j {
      OffsetsAscend(items, i + 1, j);
    } else {
      MulMono(p + 1, q, TypeSize(items[i].itemType));
    }
  }

  /** Different slots share no byte. */
  lemma SlotsAreDisjoint(items: seq<Item>, i: int, p: int, j: int, q: int)
    requires NonNegative(items) && InBounds(items, i, p) && InBounds(items, j, q) && (i, p) != (j, q)
    ensures SlotEnd(items, i, p) <= SlotStart(items, j, q) || SlotEnd(items, j, q) <= SlotStart(items, i, p)
  {
    if i < j || (i == j && p < q) {
      SlotsAscend(items, i, p, j, q);
    } else {
      SlotsAscend(items, j, q, i, p);
    }
  }

  /** The layout of one value of each type, in order. */
  lemma OneOfEachType()
    ensures var items := seq(7, i requires 0 <= i < 7 => Item([INT8, INT16, INT32, UINT8, UINT16, UINT32, REAL][i], 1));
            && SlotStart(items, 1, 0) == 1 && SlotStart(items, 2, 0) == 3 && SlotStart(items, 3, 0) == 7
            && SlotStart(items, 4, 0) == 8 && SlotStart(items, 5, 0) == 10 && SlotStart(items, 6, 0) == 14
            && SlotEnd(items, 6, 0) == 22 == Offset(items, 7)
  {
    var items := seq(7, i requires 0 <= i < 7 => Item([INT8, INT16, INT32, UINT8, UINT16, UINT32, REAL][i], 1));
    assert Offset(items, 0) == 0 && Offset(items, 1) == 1 && Offset(items, 2) == 3 && Offset(items, 3) == 7;
    assert Offset(items, 4) == 8 && Offset(items, 5) == 10 && Offset(items, 6) == 14 && Offset(items, 7) == 22;
  }

  /** Every byte of the buffer belongs to a slot; by disjointness, to only one. */
  lemma {:induction false} EveryByteHasASlot(items: seq<Item>, b: nat, n: nat) returns (index: nat, pos: nat)
    requires NonNegative(items) && n <= |items| && b < Offset(items, n)
    ensures InBounds(items, index, pos) && SlotStart(items, index, pos) <= b < SlotEnd(items, index, pos)
  {
    if b < Offset(items, n - 1) {
      index, pos := EveryByteHasASlot(items, b, n - 1);
    } else {
      index := n - 1;
      var size, within := TypeSize(items[index].itemType), b - Offset(items, n - 1);
      var many := items[index].multiplicity;
      pos := within / size;
      assert within == pos * size + within % size;
      if many <= pos {
        MulMono(many, pos, size);
        assert false;
      }
    }
  }

  /** A change within one slot leaves any other slot alone. */
  lemma OtherSlotIsKept(items: seq<Item>, before: Bytes, after: Bytes, i: int, p: int, j: int, q: int)
    requires NonNegative(items) && InBounds(items, i, p) && InBounds(items, j, q) && (i, p) != (j, q)
    requires |before| == |after| == Offset(items, |items|)
    requires forall b :: 0 <= b < |after| && !(SlotStart(items, j, q) <= b < SlotEnd(items, j, q)) ==> after[b] == before[b]
    ensures 0 <= SlotStart(items, i, p) < SlotEnd(items, i, p) <= |after|
    ensures after[SlotStart(items, i, p)..SlotEnd(items, i, p)] == before[SlotStart(items, i, p)..SlotEnd(items, i, p)]
  {
    hide SlotStart, SlotEnd, Offset;
    SlotsAreDisjoint(items, i, p, j, q);
    SlotWithinData(items, i, p);
  }

  /** The assertion in the offset computation holds of every slot in bounds if and only if
      no item with values reaches past the end of the data. */
  lemma SlotsFitIff(items: seq<Item>, dataSize: int)
    ensures (forall index, pos :: InBounds(items, index, pos) ==> SlotEnd(items, index, pos) <= dataSize)
       <==> (forall i :: 0 <= i < |items| && items[i].multiplicity > 0 ==> Offset(items, i + 1) <= dataSize)
  {
    forall i | 0 <= i < |items| && items[i].multiplicity > 0
      ensures SlotEnd(items, i, items[i].multiplicity - 1) == Offset(items, i + 1)
    {
    }
    forall index, pos | InBounds(items, index, pos)
      ensures SlotEnd(items, index, pos) <= Offset(items, index + 1)
    {
      MulMono(pos + 1, items[index].multiplicity, TypeSize(items[index].itemType));
    }
  }

  /** A negative multiplicity makes the assertion fail: two bytes, less one, are too few for
      the second of them. */
  lemma NegativeMultiplicityBreaksTheLayout()
    ensures var items := [Item(INT8, 2), Item(INT8, -1)];
            InBounds(items, 0, 1) && SlotEnd(items, 0, 1) > Offset(items, |items|) > 0
  {
    var items := [Item(INT8, 2), Item(INT8, -1)];
    assert Offset(items, 1) == 2;
  }

  // ------------------------------------------------------------------------ the element

  class DataElement {
    var dataPtr: array<Byte>
    var dataSize: int
    var items: seq<Item>

    /** What a create without negative multiplicities establishes. */
    ghost predicate Valid()
      reads this
    {
      NonNegative(items) && dataSize == dataPtr.Length == Offset(items, |items|)
    }

    ghost function SlotBytes(index: int, pos: int): Bytes
      requires Valid() && InBounds(items, index, pos)
      reads this, dataPtr
    {
      SlotWithinData(items, index, pos);
      dataPtr[SlotStart(items, index, pos)..SlotEnd(items, index, pos)]
    }

    /** dm_init; an empty array stands for the null pointer. */
    constructor ()
      ensures Valid() && items == [] && fresh(dataPtr)
    {
      dataPtr := new Byte[0];
      dataSize, items := 0, [];
    }

    /** Creating an element without items keeps the description it had. */
    method Create(types: seq<ItemType>, multiplicities: seq<int>)
      requires |types| == |multiplicities|
      modifies this
      ensures types == [] ==> items == old(items) && dataSize == 0
      ensures types != [] ==>
                && |items| == |types|
                && (forall i :: 0 <= i < |types| ==> items[i] == Item(types[i], multiplicities[i]))
                && dataSize == if Offset(items, |items|) > 0 then Offset(items, |items|) else 0
      ensures fresh(dataPtr) && dataPtr.Length == dataSize
      ensures (forall i :: 0 <= i < |types| ==> multiplicities[i] >= 0) && (types == [] ==> old(items) == []) ==> Valid()
    {
      if |types| > 0 {
        items := seq(|types|, i requires 0 <= i < |types| && |types| == |multiplicities| => Item(types[i], multiplicities[i]));
      }
      var size := 0;
      for i := 0 to |types|
        invariant |types| <= |items| && size == Offset(items, i)
      {
        size := size + TypeSize(items[i].itemType) * items[i].multiplicity;
      }
      if size > 0 {
        dataPtr := new Byte[size];
        dataSize := size;
      } else {
        dataPtr := new Byte[0];
        dataSize := 0;
      }
      if NonNegative(items) {
        OffsetsAscend(items, 0, |items|);
      }
    }

    /** Out of bounds it still reports success, with the results left as they were. The
        precondition is the assertion in it, which holds of every valid element. */
    method GetOffsetAndSize(index: int, pos: int, offset0: int, size0: int) returns (ret: int, offset: int, size: int)
      requires InBounds(items, index, pos) ==> SlotEnd(items, index, pos) <= dataSize
      ensures ret == RET_OK
      ensures if InBounds(items, index, pos)
              then offset == SlotStart(items, index, pos) && size == TypeSize(items[index].itemType)
              else offset == offset0 && size == size0
    {
      if index < 0 || index >= |items| || pos < 0 || pos >= items[index].multiplicity {
        return RET_FAIL, offset0, size0;
      }
      offset := 0;
      for i := 0 to index
        invariant offset == Offset(items, i)
      {
        offset := offset + TypeSize(items[i].itemType) * items[i].multiplicity;
      }
      size := TypeSize(items[index].itemType);
      offset := offset + pos * size;
      assert offset + size <= dataSize;
      ret := RET_OK;
    }

    /** The bytes an access copies: those of the slot, or out of bounds those that the two
        variables left unset happen to name. */
    ghost function Range(index: int, pos: int, unset: (int, int)): (r: (int, int))
      requires Valid()
      reads this
      ensures InBounds(items, index, pos) ==> 0 <= r.0 && 0 <= r.1 && r.0 + r.1 <= dataPtr.Length
    {
      if InBounds(items, index, pos) then
        SlotWithinData(items, index, pos);
        (SlotStart(items, index, pos), TypeSize(items[index].itemType))
      else unset
    }

    /** `size` is the room in the caller's `value`; too little of it leaves the value
        uncopied, and the returned size does not tell. `unset` is what the uninitialized
        offset and size hold; a copy of such a range is defined only inside the buffer. */
    method GetValue(index: int, pos: int, size: int, unset: (int, int)) returns (valueSize: int, copied: bool, value: Bytes)
      requires Valid()
      requires InBounds(items, index, pos) || size < unset.1 || (0 <= unset.0 && 0 <= unset.1 && unset.0 + unset.1 <= dataPtr.Length)
      ensures valueSize == Range(index, pos, unset).1
      ensures copied <==> valueSize <= size
      ensures copied && InBounds(items, index, pos) ==> value == SlotBytes(index, pos)
      ensures copied && !InBounds(items, index, pos) ==> value == dataPtr[unset.0..unset.0 + unset.1]
    {
      if InBounds(items, index, pos) {
        SlotWithinData(items, index, pos);
      }
      var ret, offset;
      ret, offset, valueSize := GetOffsetAndSize(index, pos, unset.0, unset.1);
      value := [];
      copied := valueSize <= size;
      if copied {
        value := dataPtr[offset..offset + valueSize];
      }
    }

    /** Writes its slot and no other, and nothing at all when the size is not the slot's. Out
        of bounds it writes where the unset variables say, if their size is the value's. */
    method SetValue(index: int, pos: int, value: Bytes, unset: (int, int)) returns (ret: int)
      requires Valid()
      requires InBounds(items, index, pos) || |value| != unset.1 || (0 <= unset.0 && unset.0 + unset.1 <= dataPtr.Length)
      modifies dataPtr
      ensures ret == RET_OK
      ensures |value| != Range(index, pos, unset).1 ==> dataPtr[..] == old(dataPtr[..])
      ensures |value| == Range(index, pos, unset).1 ==>
                var at := Range(index, pos, unset).0;
                dataPtr[..] == old(dataPtr[..at]) + value + old(dataPtr[at + |value|..])
      ensures InBounds(items, index, pos) && |value| == TypeSize(items[index].itemType) ==> SlotBytes(index, pos) == value
      ensures InBounds(items, index, pos) ==>
                forall i, p :: InBounds(items, i, p) && ((i, p) != (index, pos) || |value| != TypeSize(items[index].itemType))
                  ==> SlotBytes(i, p) == old(SlotBytes(i, p))
    {
      if InBounds(items, index, pos) {
        SlotWithinData(items, index, pos);
      }
      var offset, valueSize;
      ret, offset, valueSize := GetOffsetAndSize(index, pos, unset.0, unset.1);
      if valueSize == |value| {
        forall k | 0 <= k < valueSize {
          dataPtr[offset + k] := value[k];
        }
        ghost var before, after := old(dataPtr[..]), dataPtr[..];
        assert after == before[..offset] + value + before[offset + valueSize..];
        if InBounds(items, index, pos) {
          forall i, p | InBounds(items, i, p) && (i, p) != (index, pos)
            ensures SlotBytes(i, p) == old(SlotBytes(i, p))
          {
            OtherSlotIsKept(items, before, after, i, p, index, pos);
          }
        }
      }
    }
  }

  // ------------------------------------------------------------------------ block ports

  /** The bytes of item `i` in a buffer. */
  function ItemAt(items: seq<Item>, data: Bytes, i: nat): Bytes
    requires NonNegative(items) && |data| == Offset(items, |items|) && i < |items|
  {
    OffsetsAscend(items, i, i + 1);
    OffsetsAscend(items, i + 1, |items|);
    data[Offset(items, i)..Offset(items, i + 1)]
  }

  /** Every port is as large as its item. */
  ghost predicate PortsFit(items: seq<Item>, ports: seq<array<Byte>>) {
    |ports| == |items| && forall i :: 0 <= i < |items| ==> 0 <= ItemBytes(items[i]) <= ports[i].Length
  }

  /** The part of each of the first `n` ports that its item takes up. */
  ghost function Fronts(items: seq<Item>, ports: seq<array<Byte>>, n: nat): seq<Bytes>
    requires PortsFit(items, ports) && n <= |items|
    reads ports
  {
    if n == 0 then [] else Fronts(items, ports, n - 1) + [ports[n - 1][..ItemBytes(items[n - 1])]]
  }

  lemma FrontsNext(items: seq<Item>, ports: seq<array<Byte>>, i: nat)
    requires PortsFit(items, ports) && i < |items|
    ensures Concat(Fronts(items, ports, i + 1)) == Concat(Fronts(items, ports, i)) + ports[i][..ItemBytes(items[i])]
  {
    var front := ports[i][..ItemBytes(items[i])];
    ConcatAppend(Fronts(items, ports, i), [front]);
    assert Concat([front]) == front;
  }

  /** The span of item `i` as both copying loops compute it; where they copy nothing, for an
      item without values, the offset they are left with does not matter and is given as 0. */
  method ItemSpan(element: DataElement, i: nat) returns (offset: nat, n: nat)
    requires element.Valid() && i < |element.items|
    ensures n == ItemBytes(element.items[i]) && offset + n <= element.dataPtr.Length
    ensures 0 <= Offset(element.items, i) && Offset(element.items, i) + n == Offset(element.items, i + 1) <= element.dataPtr.Length
    ensures n > 0 ==> offset == Offset(element.items, i)
  {
    OffsetsAscend(element.items, 0, i);
    OffsetsAscend(element.items, i + 1, |element.items|);
    ItemBytesAreNonNegative(element.items[i]);
    if element.items[i].multiplicity > 0 {
      SlotWithinData(element.items, i, 0);
    }
    var ret, at, valueSize := element.GetOffsetAndSize(i, 0, 0, 0);
    offset, n := at, valueSize * element.items[i].multiplicity;
  }

  /** Copies the input ports into the element: its whole buffer is then the ports, one after
      the other. */
  method AssignInputData(input: DataElement, inptr: seq<array<Byte>>)
    requires input.Valid() && PortsFit(input.items, inptr)
    requires forall i :: 0 <= i < |inptr| ==> inptr[i] != input.dataPtr
    modifies input.dataPtr
    ensures input.dataPtr[..] == Concat(Fronts(input.items, inptr, |inptr|))
  {
    hide Concat, Fronts, Offset, ItemBytes, TypeSize;
    var items, data := input.items, input.dataPtr;
    NoFronts(items, inptr);
    for i := 0 to |items|
      invariant 0 <= Offset(items, i) <= data.Length
      invariant data[..Offset(items, i)] == Concat(Fronts(items, inptr, i))
    {
      var offset, n := ItemSpan(input, i);
      CopyBytes(data, offset, inptr[i], n);
      FrontsNext(items, inptr, i);
      if n > 0 {
        assert data[..offset + n] == data[..offset] + data[offset..offset + n];
      }
    }
  }

  lemma NoFronts(items: seq<Item>, ports: seq<array<Byte>>)
    requires PortsFit(items, ports)
    ensures Offset(items, 0) == 0 && Concat(Fronts(items, ports, 0)) == []
  {
  }

  /** memcpy of `n` bytes to offset `at`. */
  method CopyBytes(dst: array<Byte>, at: nat, src: array<Byte>, n: nat)
    requires dst != src && at + n <= dst.Length && n <= src.Length
    modifies dst
    ensures dst[..at] == old(dst[..at]) && dst[at..at + n] == src[..n] && dst[at + n..] == old(dst[at + n..])
  {
    forall b | 0 <= b < n {
      dst[at + b] := src[b];
    }
  }

  /** Copies the items of the element out to the fronts of the ports. */
  method AssignOutputData(output: DataElement, outptr: seq<array<Byte>>)
    requires output.Valid() && PortsFit(output.items, outptr)
    requires forall i :: 0 <= i < |outptr| ==> outptr[i] != output.dataPtr
    requires forall i, j :: 0 <= i < j < |outptr| ==> outptr[i] != outptr[j]
    modifies outptr
    ensures forall i :: 0 <= i < |outptr| ==> Filled(output.items, output.dataPtr[..], i, outptr[i], old(outptr[i][..]))
  {
    hide ItemAt, Offset, ItemBytes, TypeSize;
    var items, data := output.items, output.dataPtr;
    ghost var d := data[..];
    for i := 0 to |items|
      invariant forall k :: 0 <= k < i ==> Filled(items, d, k, outptr[k], old(outptr[k][..]))
      invariant forall k :: i <= k < |items| ==> outptr[k][..] == old(outptr[k][..])
      invariant data[..] == d
    {
      var offset, n := ItemSpan(output, i);
      ItemSpans(items, d, i);
      CopyOut(outptr[i], data, offset, n);
    }
  }

  /** The front of a port is item `k`; the rest is as before. */
  ghost predicate Filled(items: seq<Item>, data: Bytes, k: nat, port: array<Byte>, before: Bytes)
    requires NonNegative(items) && |data| == Offset(items, |items|) && k < |items|
    requires 0 <= ItemBytes(items[k]) <= port.Length == |before|
    reads port
  {
    && port[..ItemBytes(items[k])] == ItemAt(items, data, k)
    && port[ItemBytes(items[k])..] == before[ItemBytes(items[k])..]
  }

  lemma ItemSpans(items: seq<Item>, data: Bytes, i: nat)
    requires NonNegative(items) && |data| == Offset(items, |items|) && i < |items|
    ensures 0 <= Offset(items, i) <= Offset(items, i + 1) <= |data|
    ensures ItemAt(items, data, i) == data[Offset(items, i)..Offset(items, i + 1)]
  {
    OffsetsAscend(items, i, i + 1);
    OffsetsAscend(items, i + 1, |items|);
  }

  /** memcpy of `n` bytes from offset `at`. */
  method CopyOut(dst: array<Byte>, src: array<Byte>, at: nat, n: nat)
    requires dst != src && at + n <= src.Length && n <= dst.Length
    modifies dst
    ensures dst[..n] == src[at..at + n] && dst[n..] == old(dst[n..])
  {
    forall b | 0 <= b < n {
      dst[b] := src[at + b];
    }
  }

  /** In a buffer that is the pieces one after the other, item `i` is piece `i`. */
  lemma {:induction false} ItemsArePorts(items: seq<Item>, fronts: seq<Bytes>, i: nat)
    requires NonNegative(items) && |fronts| == |items| && i < |items|
    requires forall k :: 0 <= k < |items| ==> |fronts[k]| == ItemBytes(items[k])
    ensures |Concat(fronts)| == Offset(items, |items|)
    ensures ItemAt(items, Concat(fronts), i) == fronts[i]
  {
    FrontsLength(items, fronts, i);
    FrontsLength(items, fronts, i + 1);
    FrontsLength(items, fronts, |items|);
    assert fronts[..i + 1] == fronts[..i] + [fronts[i]];
    assert fronts == fronts[..i + 1] + fronts[i + 1..] == fronts[..|items|];
    ConcatAppend(fronts[..i], [fronts[i]]);
    ConcatAppend(fronts[..i + 1], fronts[i + 1..]);
    assert Concat([fronts[i]]) == fronts[i];
  }

  lemma {:induction false} FrontsLength(items: seq<Item>, fronts: seq<Bytes>, n: nat)
    requires n <= |items| == |fronts|
    requires forall k :: 0 <= k < |items| ==> |fronts[k]| == ItemBytes(items[k])
    ensures |Concat(fronts[..n])| == Offset(items, n)
  {
    if n == 0 {
    } else {
      FrontsLength(items, fronts, n - 1);
      assert fronts[..n] == fronts[..n - 1] + [fronts[n - 1]];
      ConcatAppend(fronts[..n - 1], [fronts[n - 1]]);
      assert Concat([fronts[n - 1]]) == fronts[n - 1];
    }
  }

  lemma {:induction false} FrontAt(items: seq<Item>, ports: seq<array<Byte>>, n: nat)
    requires PortsFit(items, ports) && n <= |items|
    ensures |Fronts(items, ports, n)| == n
    ensures forall i :: 0 <= i < n ==> Fronts(items, ports, n)[i] == ports[i][..ItemBytes(items[i])]
  {
    if n == 0 {
    } else {
      FrontAt(items, ports, n - 1);
    }
  }

  /** What AssignInputData leaves in a buffer, AssignOutputData on the same layout puts out:
      the front of every port, as many bytes as its item has. */
  lemma PortsComeBack(items: seq<Item>, inptr: seq<array<Byte>>, data: Bytes, i: nat)
    requires NonNegative(items) && PortsFit(items, inptr) && i < |items|
    requires data == Concat(Fronts(items, inptr, |items|))
    ensures |data| == Offset(items, |items|)
    ensures ItemAt(items, data, i) == inptr[i][..ItemBytes(items[i])]
  {
    hide Concat, Fronts, ItemBytes, Offset;
    FrontAt(items, inptr, |items|);
    ItemsArePorts(items, Fronts(items, inptr, |items|), i);
  }
}
