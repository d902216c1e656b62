/**
 What a built object holds, told from the shape alone: where every scalar and pointer of the shape comes to lie, however
 deep it is nested, and when there is an object at all.
 */
module InlineContents {
  import opened Wrappers
  import opened MachineInts
  import opened Alignment
  import opened InlineLayout

  // ---------------------------------------------------------------- sizes and places

  /** `value` rounded up by the mask, in numbers without a width. */
  function Rounded(value: nat, align: nat): nat {
    if align <= 1 then value else AndNot(value + (align - 1), align - 1)
  }

  /** Rounding stays within the width. */
  predicate Roomy(value: nat, align: nat) {
    align <= 1 || value + (align - 1) <= USIZE_MAX
  }

  function Size(shape: Shape): nat
    decreases shape, 1
  {
    match shape
    case Scalar(bytes, _) => |bytes|
    case Pointer(_, _) => 8
    case Array(elements, _) => SizeOfAll(elements)
    case Struct(fields, packed, _) => Rounded(EndOf(fields, packed), FieldAlignment(shape).GetOr(1))
  }

  function SizeOfAll(elements: seq<Shape>): nat
    decreases elements, 0
  {
    if elements == [] then 0 else SizeOfAll(elements[..|elements| - 1]) + Size(elements[|elements| - 1])
  }

  /** Where the fields end, each at the next offset its alignment allows. */
  function EndOf(fields: seq<Shape>, packed: bool): nat
    decreases fields, 0
  {
    if fields == [] then 0
    else
      var n := |fields| - 1;
      Rounded(EndOf(fields[..n], packed), Placement(fields[n], packed).GetOr(1)) + Size(fields[n])
  }

  /** A scalar, or the eight zeros of a pointer together with its target unless it is null. */
  datatype Leaf = Leaf(at: nat, bytes: seq<byte>, alignment: nat, target: Option<int>)

  function MovedLeaves(leaves: seq<Leaf>, delta: nat): (r: seq<Leaf>)
    ensures |r| == |leaves|
    ensures forall i :: 0 <= i < |leaves| ==> r[i] == leaves[i].(at := leaves[i].at + delta)
  {
    seq(|leaves|, i requires 0 <= i < |leaves| => leaves[i].(at := leaves[i].at + delta))
  }

  /** The scalars and pointers of a shape in order, at every depth. */
  function Leaves(shape: Shape): seq<Leaf>
    decreases shape, 1
  {
    match shape
    case Scalar(bytes, alignment) => [Leaf(0, bytes, alignment, None)]
    case Pointer(target, isNull) => [Leaf(0, Zeros(8), 8, if isNull then None else Some(target))]
    case Array(elements, _) => ElementLeaves(elements)
    case Struct(fields, packed, _) => FieldLeaves(fields, packed)
  }

  function ElementLeaves(elements: seq<Shape>): seq<Leaf>
    decreases elements, 0
  {
    if elements == [] then []
    else
      var n := |elements| - 1;
      ElementLeaves(elements[..n]) + MovedLeaves(Leaves(elements[n]), SizeOfAll(elements[..n]))
  }

  function FieldLeaves(fields: seq<Shape>, packed: bool): seq<Leaf>
    decreases fields, 0
  {
    if fields == [] then []
    else
      var n := |fields| - 1;
      FieldLeaves(fields[..n], packed)
      + MovedLeaves(Leaves(fields[n]), Rounded(EndOf(fields[..n], packed), Placement(fields[n], packed).GetOr(1)))
  }

  // ---------------------------------------------------------------- what an object shows

  predicate Covers(leaf: Leaf, k: nat) {
    leaf.at <= k < leaf.at + |leaf.bytes|
  }

  predicate Covered(leaves: seq<Leaf>, k: nat) {
    exists i :: 0 <= i < |leaves| && Covers(leaves[i], k)
  }

  /** Every leaf has its bytes at its place, in order and apart from each other, and everything else is zero. */
  ghost predicate Painted(data: seq<byte>, leaves: seq<Leaf>) {
    && (forall i :: 0 <= i < |leaves| ==> HoldsAt(data, leaves[i].at, leaves[i].bytes))
    && (forall i, j :: 0 <= i < j < |leaves| ==> leaves[i].at + |leaves[i].bytes| <= leaves[j].at)
    && (forall k: nat :: k < |data| && !Covered(leaves, k) ==> data[k] == 0)
  }

  function SlotOf(leaf: Leaf): seq<Slot> {
    if leaf.target.Some? then [Slot(leaf.at, leaf.target.value)] else []
  }

  /** A slot at the place of every pointer that is not null. */
  function SlotsOf(leaves: seq<Leaf>): seq<Slot> {
    if leaves == [] then [] else SlotsOf(leaves[..|leaves| - 1]) + SlotOf(leaves[|leaves| - 1])
  }

  ghost predicate Shows(o: Object, leaves: seq<Leaf>, size: nat) {
    |o.data| == size && Painted(o.data, leaves) && o.pointers == SlotsOf(leaves)
  }

  // ---------------------------------------------------------------- placing one object after another

  lemma {:induction false} SlotsConcat(a: seq<Leaf>, b: seq<Leaf>)
    ensures SlotsOf(a + b) == SlotsOf(a) + SlotsOf(b)
  {
    if b == [] {
      assert a + b == a;
    } else {
      assert (a + b)[..|a + b| - 1] == a + b[..|b| - 1];
      SlotsConcat(a, b[..|b| - 1]);
    }
  }

  lemma SlotMoves(slots: seq<Slot>, leaf: Leaf, delta: nat)
    ensures ShiftSlots(slots + SlotOf(leaf), delta)
         == ShiftSlots(slots, delta) + SlotOf(leaf.(at := leaf.at + delta))
  {
  }

  lemma {:induction false} SlotsMove(leaves: seq<Leaf>, delta: nat)
    ensures SlotsOf(MovedLeaves(leaves, delta)) == ShiftSlots(SlotsOf(leaves), delta)
  {
    if leaves == [] {
      assert MovedLeaves(leaves, delta) == [];
    } else {
      var n := |leaves| - 1;
      SlotsMove(leaves[..n], delta);
      assert MovedLeaves(leaves, delta)[..n] == MovedLeaves(leaves[..n], delta);
      SlotMoves(SlotsOf(leaves[..n]), leaves[n], delta);
    }
  }

  lemma HeldAfterPlacing(data: seq<byte>, base: nat, bytes: seq<byte>, ls: seq<Leaf>, inner: seq<Leaf>, i: nat)
    requires |data| <= base && Painted(data, ls) && Painted(bytes, inner) && i < |ls| + |inner|
    ensures var leaf := (ls + MovedLeaves(inner, base))[i];
      HoldsAt(data + Zeros(base - |data|) + bytes, leaf.at, leaf.bytes)
  {
    var longer := data + Zeros(base - |data|) + bytes;
    if i < |ls| {
      assert HoldsAt(data, ls[i].at, ls[i].bytes) && longer[..|data|] == data;
      SliceStays(data, longer, Range(ls[i].at, ls[i].at + |ls[i].bytes|));
    } else {
      var leaf := inner[i - |ls|];
      assert HoldsAt(bytes, leaf.at, leaf.bytes);
      PaddedThenBytes(data, base, bytes);
      HoldsFurther(bytes, longer, base, leaf.at, leaf.bytes);
    }
  }

  lemma BlankAfterPlacing(data: seq<byte>, base: nat, bytes: seq<byte>, ls: seq<Leaf>, inner: seq<Leaf>, k: nat)
    requires |data| <= base && Painted(data, ls) && Painted(bytes, inner) && k < base + |bytes|
    requires !Covered(ls + MovedLeaves(inner, base), k)
    ensures (data + Zeros(base - |data|) + bytes)[k] == 0
  {
    var all := ls + MovedLeaves(inner, base);
    if k < |data| {
      forall i | 0 <= i < |ls| ensures !Covers(ls[i], k) {
        assert all[i] == ls[i];
      }
      assert !Covered(ls, k);
    } else if base <= k {
      forall i | 0 <= i < |inner| ensures !Covers(inner[i], k - base) {
        assert all[|ls| + i] == MovedLeaves(inner, base)[i];
      }
      assert !Covered(inner, k - base);
    }
  }

  lemma PaintedAfterPlacing(data: seq<byte>, base: nat, bytes: seq<byte>, ls: seq<Leaf>, inner: seq<Leaf>)
    requires |data| <= base && Painted(data, ls) && Painted(bytes, inner)
    ensures Painted(data + Zeros(base - |data|) + bytes, ls + MovedLeaves(inner, base))
  {
    var longer, all := data + Zeros(base - |data|) + bytes, ls + MovedLeaves(inner, base);
    forall i | 0 <= i < |all| ensures HoldsAt(longer, all[i].at, all[i].bytes) {
      HeldAfterPlacing(data, base, bytes, ls, inner, i);
    }
    forall i, j | 0 <= i < j < |all| ensures all[i].at + |all[i].bytes| <= all[j].at {
      if i < |ls| <= j {
        assert HoldsAt(data, ls[i].at, ls[i].bytes);
      }
    }
    forall k: nat | k < |longer| && !Covered(all, k) ensures longer[k] == 0 {
      BlankAfterPlacing(data, base, bytes, ls, inner, k);
    }
  }

  lemma PlacedShows(out: Object, ls: seq<Leaf>, n: nat, base: nat, child: Object, inner: seq<Leaf>, m: nat)
    requires Shows(out, ls, n) && Shows(child, inner, m) && n <= base
    ensures Shows(Placed(out, base, child), ls + MovedLeaves(inner, base), base + m)
  {
    PaintedAfterPlacing(out.data, base, child.data, ls, inner);
    SlotsMove(inner, base);
    SlotsConcat(ls, MovedLeaves(inner, base));
  }

  lemma GrownShows(out: Object, ls: seq<Leaf>, n: nat, size: nat)
    requires Shows(out, ls, n) && n <= size
    ensures Shows(out.(data := Resized(out.data, size)), ls, size)
  {
    assert Painted([], []);
    PaintedAfterPlacing(out.data, size, [], ls, []);
    assert ls + MovedLeaves([], size) == ls;
    assert out.data + Zeros(size - n) + [] == Resized(out.data, size);
  }

  // ---------------------------------------------------------------- when there is an object

  /** The alignment of every struct in the shape is known, and in structs that are not packed that of every field. */
  predicate AlignmentsKnown(shape: Shape)
    decreases shape, 1
  {
    match shape
    case Scalar(_, _) => true
    case Pointer(_, _) => true
    case Array(elements, _) => forall i :: 0 <= i < |elements| ==> AlignmentsKnown(elements[i])
    case Struct(fields, packed, _) =>
      && FieldAlignment(shape).Some?
      && forall i :: 0 <= i < |fields| ==> AlignmentsKnown(fields[i]) && Placement(fields[i], packed).Some?
  }

  /** No rounding and no end of a field exceeds the width. */
  predicate Fits(shape: Shape)
    decreases shape, 1
  {
    match shape
    case Scalar(_, _) => true
    case Pointer(_, _) => true
    case Array(elements, _) => forall i :: 0 <= i < |elements| ==> Fits(elements[i])
    case Struct(fields, packed, _) =>
      && Roomy(EndOf(fields, packed), FieldAlignment(shape).GetOr(1))
      && forall i :: 0 <= i < |fields| ==> Fits(fields[i]) && FieldFits(fields, packed, i)
  }

  predicate FieldFits(fields: seq<Shape>, packed: bool, i: nat)
    requires i < |fields|
  {
    && Roomy(EndOf(fields[..i], packed), Placement(fields[i], packed).GetOr(1))
    && EndOf(fields[..i + 1], packed) <= USIZE_MAX
  }

  predicate FieldGoes(fields: seq<Shape>, packed: bool, i: nat)
    requires i < |fields|
  {
    && AlignmentsKnown(fields[i]) && Fits(fields[i]) && Placement(fields[i], packed).Some?
    && FieldFits(fields, packed, i)
  }

  predicate FieldsGo(fields: seq<Shape>, packed: bool) {
    forall i :: 0 <= i < |fields| ==> FieldGoes(fields, packed, i)
  }

  predicate ElementsGo(elements: seq<Shape>) {
    forall i :: 0 <= i < |elements| ==> AlignmentsKnown(elements[i]) && Fits(elements[i])
  }

  lemma ElementsGoOneMore(elements: seq<Shape>)
    requires elements != []
    ensures var n := |elements| - 1;
      ElementsGo(elements) <==> ElementsGo(elements[..n]) && AlignmentsKnown(elements[n]) && Fits(elements[n])
  {
    var n := |elements| - 1;
    assert forall i :: 0 <= i < n ==> elements[..n][i] == elements[i];
  }

  lemma FieldsGoOneMore(fields: seq<Shape>, packed: bool)
    requires fields != []
    ensures var n := |fields| - 1;
      FieldsGo(fields, packed) <==> FieldsGo(fields[..n], packed) && FieldGoes(fields, packed, n)
  {
    var n := |fields| - 1;
    forall i | 0 <= i < n ensures FieldGoes(fields, packed, i) <==> FieldGoes(fields[..n], packed, i) {
      assert fields[..n][..i] == fields[..i] && fields[..n][..i + 1] == fields[..i + 1];
    }
  }

  lemma RoomyRounds(value: nat, align: nat)
    ensures AlignUp(value, align) == if Roomy(value, align) then Some(Rounded(value, align)) else None
    ensures Rounded(value, align) >= value
  {
    if align > 1 {
      AndNotBounds(value + (align - 1), align - 1);
    }
  }

  /** Adding a field fails exactly where a number gets too large. */
  lemma AddFieldGoes(acc: Fields, child: Object, alignment: nat)
    ensures AddField(acc, child, alignment).Some?
       <==> Roomy(|acc.out.data|, alignment) && Rounded(|acc.out.data|, alignment) + |child.data| <= USIZE_MAX
  {
    RoomyRounds(|acc.out.data|, alignment);
  }

  // ---------------------------------------------------------------- the object of a shape

  /**
   There is an object exactly if all alignments are known and all sizes fit, and then it has the size of the shape and
   shows its leaves and nothing else.
   */
  lemma {:induction false} ObjectShowsItsLeaves(shape: Shape, recompute: Recompute)
    ensures Build(shape, recompute).Some? <==> AlignmentsKnown(shape) && Fits(shape)
    ensures Build(shape, recompute).Some? ==> Shows(Build(shape, recompute).value, Leaves(shape), Size(shape))
    decreases shape, 1
  {
    match shape
    case Scalar(bytes, alignment) => ScalarShows(bytes, alignment);
    case Pointer(target, isNull) => PointerShows(target, isNull);
    case Array(elements, _) => ElementsShow(elements, recompute);
    case Struct(fields, packed, _) =>
      FieldsShow(fields, packed, recompute);
      FinishedShows(shape, recompute);
  }

  lemma ScalarShows(bytes: seq<byte>, alignment: nat)
    ensures Shows(Object(bytes, [], []), [Leaf(0, bytes, alignment, None)], |bytes|)
  {
    var leaves := [Leaf(0, bytes, alignment, None)];
    forall k: nat | k < |bytes| ensures Covered(leaves, k) {
      assert Covers(leaves[0], k);
    }
    assert leaves[..0] == [];
  }

  lemma PointerShows(target: int, isNull: bool)
    ensures Shows(Object(Zeros(8), if isNull then [] else [Slot(0, target)], []),
                  [Leaf(0, Zeros(8), 8, if isNull then None else Some(target))], 8)
  {
    var leaves := [Leaf(0, Zeros(8), 8, if isNull then None else Some(target))];
    assert leaves[..0] == [];
  }

  lemma NothingShows()
    ensures Shows(EMPTY, [], 0)
  {
  }

  lemma {:induction false} ElementsShow(elements: seq<Shape>, recompute: Recompute)
    ensures BuildElements(elements, recompute).Some? <==> ElementsGo(elements)
    ensures BuildElements(elements, recompute).Some? ==>
      Shows(BuildElements(elements, recompute).value, ElementLeaves(elements), SizeOfAll(elements))
    decreases elements, 0
  {
    if elements == [] {
      NothingShows();
    } else {
      var n := |elements| - 1;
      ElementsShow(elements[..n], recompute);
      ObjectShowsItsLeaves(elements[n], recompute);
      ElementsGoOneMore(elements);
      var before, last := BuildElements(elements[..n], recompute), Build(elements[n], recompute);
      if before.Some? && last.Some? {
        AddElementPlaces(before.value, last.value);
        PlacedShows(before.value, ElementLeaves(elements[..n]), SizeOfAll(elements[..n]), SizeOfAll(elements[..n]),
                    last.value, Leaves(elements[n]), Size(elements[n]));
      }
    }
  }

  lemma LastFieldGoes(fields: seq<Shape>, packed: bool)
    requires fields != []
    ensures var n := |fields| - 1;
      var front, last, alignment := fields[..n], fields[n], Placement(fields[n], packed);
      FieldsGo(fields, packed)
      <==> FieldsGo(front, packed) && AlignmentsKnown(last) && Fits(last)
           && alignment.Some? && Roomy(EndOf(front, packed), alignment.value)
           && Rounded(EndOf(front, packed), alignment.value) + Size(last) <= USIZE_MAX
  {
    FieldsGoOneMore(fields, packed);
    assert fields[..|fields| - 1 + 1] == fields;
  }

  lemma {:induction false} FieldsShow(fields: seq<Shape>, packed: bool, recompute: Recompute)
    ensures BuildFields(fields, packed, recompute).Some? <==> FieldsGo(fields, packed)
    ensures BuildFields(fields, packed, recompute).Some? ==>
      Shows(BuildFields(fields, packed, recompute).value.out, FieldLeaves(fields, packed), EndOf(fields, packed))
    decreases fields, 0
  {
    if fields == [] {
      NothingShows();
    } else {
      var n := |fields| - 1;
      var front, last, alignment := fields[..n], fields[n], Placement(fields[n], packed);
      FieldsShow(front, packed, recompute);
      ObjectShowsItsLeaves(last, recompute);
      LastFieldGoes(fields, packed);
      var before, child := BuildFields(front, packed, recompute), Build(last, recompute);
      if before.Some? && child.Some? && alignment.Some? {
        assert BuildFields(fields, packed, recompute) == AddField(before.value, child.value, alignment.value);
        FieldShows(before.value, FieldLeaves(front, packed), EndOf(front, packed),
                   child.value, Leaves(last), Size(last), alignment.value);
      }
    }
  }

  lemma FieldShows(acc: Fields, ls: seq<Leaf>, n: nat, child: Object, inner: seq<Leaf>, m: nat, alignment: nat)
    requires Shows(acc.out, ls, n) && Shows(child, inner, m)
    ensures AddField(acc, child, alignment).Some? <==> Roomy(n, alignment) && Rounded(n, alignment) + m <= USIZE_MAX
    ensures AddField(acc, child, alignment).Some? ==>
      Shows(AddField(acc, child, alignment).value.out,
            ls + MovedLeaves(inner, Rounded(n, alignment)), Rounded(n, alignment) + m)
  {
    AddFieldGoes(acc, child, alignment);
    RoomyRounds(n, alignment);
    if AddField(acc, child, alignment).Some? {
      AddFieldPlaces(acc, child, alignment);
      PlacedShows(acc.out, ls, n, Rounded(n, alignment), child, inner, m);
    }
  }

  lemma GoesTogether(shape: Shape)
    requires shape.Struct?
    ensures var end, alignment := EndOf(shape.fields, shape.packed), FieldAlignment(shape);
      AlignmentsKnown(shape) && Fits(shape)
      <==> FieldsGo(shape.fields, shape.packed) && alignment.Some? && Roomy(end, alignment.GetOr(1))
  {
    if FieldsGo(shape.fields, shape.packed) {
      forall i | 0 <= i < |shape.fields|
        ensures AlignmentsKnown(shape.fields[i]) && Placement(shape.fields[i], shape.packed).Some?
        ensures Fits(shape.fields[i]) && FieldFits(shape.fields, shape.packed, i)
      {
        assert FieldGoes(shape.fields, shape.packed, i);
      }
    }
  }

  lemma PaddedShows(shape: Shape, acc: Fields, ls: seq<Leaf>, end: nat, recompute: Recompute)
    requires shape.Struct? && Shows(acc.out, ls, end)
    ensures Finished(shape, acc, recompute).Some?
       <==> FieldAlignment(shape).Some? && Roomy(end, FieldAlignment(shape).GetOr(1))
    ensures Finished(shape, acc, recompute).Some? ==>
      Shows(Finished(shape, acc, recompute).value, ls, Rounded(end, FieldAlignment(shape).GetOr(1)))
  {
    var size := Rounded(end, FieldAlignment(shape).GetOr(1));
    RoomyRounds(end, FieldAlignment(shape).GetOr(1));
    GrownShows(acc.out, ls, end, size);
  }

  lemma FinishedShows(shape: Shape, recompute: Recompute)
    requires shape.Struct?
    requires BuildFields(shape.fields, shape.packed, recompute).Some? <==> FieldsGo(shape.fields, shape.packed)
    requires BuildFields(shape.fields, shape.packed, recompute).Some? ==>
      Shows(BuildFields(shape.fields, shape.packed, recompute).value.out,
            FieldLeaves(shape.fields, shape.packed), EndOf(shape.fields, shape.packed))
    ensures Build(shape, recompute).Some? <==> AlignmentsKnown(shape) && Fits(shape)
    ensures Build(shape, recompute).Some? ==> Shows(Build(shape, recompute).value, Leaves(shape), Size(shape))
  {
    var acc := BuildFields(shape.fields, shape.packed, recompute);
    GoesTogether(shape);
    if acc.Some? {
      PaddedShows(shape, acc.value, FieldLeaves(shape.fields, shape.packed),
                  EndOf(shape.fields, shape.packed), recompute);
    }
  }

  // ---------------------------------------------------------------- packed structs

  lemma {:induction false} PackedFieldsAreTight(fields: seq<Shape>)
    ensures EndOf(fields, true) == SizeOfAll(fields) && FieldLeaves(fields, true) == ElementLeaves(fields)
  {
    if fields != [] {
      PackedFieldsAreTight(fields[..|fields| - 1]);
    }
  }

  /** In a packed struct nothing is padded: its leaves lie like those of an array, and it ends where they end. */
  lemma PackedIsTight(fields: seq<Shape>)
    ensures Leaves(Struct(fields, true, None)) == Leaves(Array(fields, None))
    ensures Size(Struct(fields, true, None)) == Size(Array(fields, None))
  {
    PackedFieldsAreTight(fields);
  }

  // ---------------------------------------------------------------- every leaf is aligned

  /**
   Nothing is packed, scalars come in multiples of their power-of-two alignments, and no alignment is forced below that
   of a part.
   */
  predicate Regular(shape: Shape)
    decreases shape
  {
    match shape
    case Scalar(bytes, alignment) => IsPowerOfTwo(alignment) && |bytes| % alignment == 0
    case Pointer(_, _) => true
    case Array(elements, elementAlignment) =>
      && elementAlignment.Some? && IsPowerOfTwo(elementAlignment.value)
      && forall i :: 0 <= i < |elements| ==> Regular(elements[i]) && FieldAlignment(elements[i]) == elementAlignment
    case Struct(fields, packed, explicitAlignment) =>
      && !packed && FieldAlignment(shape).Some?
      && forall i :: 0 <= i < |fields| ==>
        Regular(fields[i]) && FieldAlignment(fields[i]).GetOr(1) <= FieldAlignment(shape).value
  }

  predicate AllRegular(shapes: seq<Shape>) {
    forall i :: 0 <= i < |shapes| ==> Regular(shapes[i])
  }

  /** The alignment of a shape is a power of two, and its size a multiple of it. */
  predicate Whole(shape: Shape) {
    FieldAlignment(shape).Some? && IsPowerOfTwo(FieldAlignment(shape).value)
    && Size(shape) % FieldAlignment(shape).value == 0
  }

  /** The leaf is at a multiple of its own alignment, a power of two of at most `alignment`. */
  predicate LeafAligned(leaf: Leaf, alignment: nat) {
    IsPowerOfTwo(leaf.alignment) && leaf.alignment <= alignment && leaf.at % leaf.alignment == 0
  }

  predicate AllAligned(leaves: seq<Leaf>, alignment: nat) {
    forall i :: 0 <= i < |leaves| ==> LeafAligned(leaves[i], alignment)
  }

  lemma RoundedIsMultiple(value: nat, align: nat)
    requires IsPowerOfTwo(align)
    ensures Rounded(value, align) % align == 0
  {
    if align > 1 {
      var x := value + (align - 1);
      MaskRoundsDown(x, align);
      MultipleHasNoRemainder(x / align, align);
    }
  }

  lemma MovedLeafStaysAligned(leaf: Leaf, alignment: nat, delta: nat)
    requires LeafAligned(leaf, alignment) && IsPowerOfTwo(alignment) && delta % alignment == 0
    ensures LeafAligned(leaf.(at := leaf.at + delta), alignment)
  {
    PowersDivide(leaf.alignment, alignment);
    MultipleOfMultiple(delta, alignment, leaf.alignment);
    SumOfMultiples(leaf.at, delta, leaf.alignment);
  }

  lemma MovedStaysAligned(leaves: seq<Leaf>, alignment: nat, delta: nat)
    requires AllAligned(leaves, alignment) && IsPowerOfTwo(alignment) && delta % alignment == 0
    ensures AllAligned(MovedLeaves(leaves, delta), alignment)
  {
    forall i | 0 <= i < |leaves| ensures LeafAligned(MovedLeaves(leaves, delta)[i], alignment) {
      MovedLeafStaysAligned(leaves[i], alignment, delta);
    }
  }

  lemma AlignedOneMore(ls: seq<Leaf>, inner: seq<Leaf>, alignment: nat, size: nat, more: nat)
    requires AllAligned(ls, alignment) && AllAligned(inner, alignment)
    requires IsPowerOfTwo(alignment) && size % alignment == 0 && more % alignment == 0
    ensures AllAligned(ls + MovedLeaves(inner, size), alignment) && (size + more) % alignment == 0
  {
    MovedStaysAligned(inner, alignment, size);
    SumOfMultiples(size, more, alignment);
  }

  lemma WholeElement(element: Shape, alignment: nat)
    requires Whole(element) && FieldAlignment(element) == Some(alignment)
    ensures Size(element) % alignment == 0
  {
  }

  lemma {:induction false} LargestIsPower(fields: seq<Shape>)
    requires forall i :: 0 <= i < |fields| ==>
      FieldAlignment(fields[i]).Some? && IsPowerOfTwo(FieldAlignment(fields[i]).value)
    ensures LargestAlignment(fields).Some? && IsPowerOfTwo(LargestAlignment(fields).value)
  {
    if fields != [] {
      var n := |fields| - 1;
      assert forall i :: 0 <= i < n ==> fields[..n][i] == fields[i];
      LargestIsPower(fields[..n]);
    }
  }

  /** In regular shapes every scalar and every pointer is at a multiple of its own alignment, at every depth. */
  lemma {:induction false} LeavesAreAligned(shape: Shape)
    requires Regular(shape)
    ensures Whole(shape) && AllAligned(Leaves(shape), FieldAlignment(shape).value)
    decreases shape, 1
  {
    match shape
    case Scalar(_, _) =>
    case Pointer(_, _) => EightIsPowerOfTwo();
    case Array(elements, elementAlignment) => ElementLeavesAligned(elements, elementAlignment.value);
    case Struct(fields, packed, explicitAlignment) =>
      forall i | 0 <= i < |fields|
        ensures FieldAlignment(fields[i]).Some? && IsPowerOfTwo(FieldAlignment(fields[i]).value)
      {
        LeavesAreAligned(fields[i]);
      }
      LargestIsPower(fields);
      FieldLeavesAligned(fields, FieldAlignment(shape).value);
      RoundedIsMultiple(EndOf(fields, packed), FieldAlignment(shape).value);
  }

  lemma {:induction false} ElementLeavesAligned(elements: seq<Shape>, alignment: nat)
    requires AllRegular(elements) && IsPowerOfTwo(alignment)
    requires forall i :: 0 <= i < |elements| ==> FieldAlignment(elements[i]) == Some(alignment)
    ensures SizeOfAll(elements) % alignment == 0 && AllAligned(ElementLeaves(elements), alignment)
    decreases elements, 0
  {
    if elements != [] {
      var n := |elements| - 1;
      var front, last := elements[..n], elements[n];
      ElementLeavesAligned(front, alignment);
      LeavesAreAligned(last);
      WholeElement(last, alignment);
      AlignedOneMore(ElementLeaves(front), Leaves(last), alignment, SizeOfAll(front), Size(last));
    } else {
      MultipleHasNoRemainder(0, alignment);
    }
  }

  lemma {:induction false} FieldLeavesAligned(fields: seq<Shape>, alignment: nat)
    requires AllRegular(fields) && forall i :: 0 <= i < |fields| ==> FieldAlignment(fields[i]).GetOr(1) <= alignment
    ensures AllAligned(FieldLeaves(fields, false), alignment)
    decreases fields, 0
  {
    if fields != [] {
      var n := |fields| - 1;
      FieldLeavesAligned(fields[..n], alignment);
      LeavesAreAligned(fields[n]);
      var own := FieldAlignment(fields[n]).value;
      RoundedIsMultiple(EndOf(fields[..n], false), own);
      MovedStaysAligned(Leaves(fields[n]), own, Rounded(EndOf(fields[..n], false), own));
    }
  }
}
