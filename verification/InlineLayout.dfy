/**
 Building the bytes of nested arguments: arrays and variable-length structs of scalars and pointers,
 with every child copied to its offset and its pointer slots and layouts moved along.
 A shape is a type together with the values drawn for it.
 */
module InlineLayout {
  import opened Wrappers
  import opened Alignment
  import opened MachineInts

  type byte = n: nat | n < 256

  datatype Shape =
    | Scalar(bytes: seq<byte>, alignment: nat)
    | Pointer(target: int, isNull: bool)
    | Array(elements: seq<Shape>, elementAlignment: Option<nat>)
    | Struct(fields: seq<Shape>, packed: bool, explicitAlignment: Option<nat>)

  /** An eight-byte hole that is to hold the address of `target`. */
  datatype Slot = Slot(offset: nat, target: int)

  datatype Range = Range(start: nat, end: nat)

  datatype Layout = Layout(base: nat, ranges: seq<Range>)

  datatype Object = Object(data: seq<byte>, pointers: seq<Slot>, layouts: seq<Layout>)

  /** What the layout code elsewhere derives for a struct of a given total size; recorded only where that differs. */
  type Recompute = (Shape, nat) -> Option<seq<Range>>

  // ---------------------------------------------------------------- alignment of shapes

  function FieldAlignment(shape: Shape): Option<nat>
    decreases shape, 1
  {
    match shape
    case Scalar(_, alignment) => Some(alignment)
    case Pointer(_, _) => Some(8)
    case Array(_, alignment) => alignment
    case Struct(fields, packed, explicitAlignment) =>
      if explicitAlignment.Some? then
        if IsPowerOfTwo(explicitAlignment.value) then explicitAlignment else None
      else if packed then Some(1)
      else LargestAlignment(fields)
  }

  function LargestAlignment(fields: seq<Shape>): Option<nat>
    decreases fields, 0
  {
    if fields == [] then Some(1)
    else
      var n := |fields| - 1;
      var before, last := LargestAlignment(fields[..n]), FieldAlignment(fields[n]);
      if before.None? || last.None? then None
      else if before.value < last.value then last else before
  }

  // ---------------------------------------------------------------- bytes, slots, layouts

  function Zeros(n: nat): (r: seq<byte>)
    ensures |r| == n
    ensures forall k :: 0 <= k < n ==> r[k] == 0
  {
    seq(n, _ => 0)
  }

  function Resized(data: seq<byte>, n: nat): (r: seq<byte>)
    ensures |r| == n
  {
    if n <= |data| then data[..n] else data + Zeros(n - |data|)
  }

  /** Copies `bytes` to `base`, first growing the data as needed. */
  function Written(data: seq<byte>, base: nat, bytes: seq<byte>): Option<seq<byte>> {
    var end := base + |bytes|;
    if end > USIZE_MAX then None
    else
      var grown := if |data| < end then Resized(data, end) else data;
      Some(grown[..base] + bytes + grown[end..])
  }

  function ShiftSlots(slots: seq<Slot>, delta: nat): (r: seq<Slot>)
    ensures |r| == |slots|
    ensures forall i :: 0 <= i < |slots| ==> r[i] == Slot(slots[i].offset + delta, slots[i].target)
  {
    seq(|slots|, i requires 0 <= i < |slots| => Slot(slots[i].offset + delta, slots[i].target))
  }

  function ShiftRanges(ranges: seq<Range>, delta: nat): (r: seq<Range>)
    ensures |r| == |ranges|
    ensures forall i :: 0 <= i < |ranges| ==> r[i] == Range(ranges[i].start + delta, ranges[i].end + delta)
  {
    seq(|ranges|, i requires 0 <= i < |ranges| => Range(ranges[i].start + delta, ranges[i].end + delta))
  }

  function ShiftLayouts(layouts: seq<Layout>, delta: nat): (r: seq<Layout>)
    ensures |r| == |layouts|
    ensures forall i :: 0 <= i < |layouts| ==>
      r[i] == Layout(layouts[i].base + delta, ShiftRanges(layouts[i].ranges, delta))
  {
    seq(|layouts|, i requires 0 <= i < |layouts| =>
      Layout(layouts[i].base + delta, ShiftRanges(layouts[i].ranges, delta)))
  }

  function Merged(out: Object, base: nat, child: Object): Option<Object> {
    var data := Written(out.data, base, child.data);
    if data.None? then None
    else Some(Object(data.value,
                     out.pointers + ShiftSlots(child.pointers, base),
                     out.layouts + ShiftLayouts(child.layouts, base)))
  }

  // ---------------------------------------------------------------- building

  const EMPTY := Object([], [], [])

  datatype Fields = Fields(out: Object, ranges: seq<Range>)

  function AddField(acc: Fields, child: Object, alignment: nat): Option<Fields> {
    var base := AlignUp(|acc.out.data|, alignment);
    if base.None? || base.value + |child.data| > USIZE_MAX then None
    else
      var merged := Merged(acc.out.(data := Resized(acc.out.data, base.value)), base.value, child);
      if merged.None? then None
      else Some(Fields(merged.value, acc.ranges + [Range(base.value, base.value + |child.data|)]))
  }

  function AddElement(out: Object, child: Object): Object {
    Object(out.data + child.data,
           out.pointers + ShiftSlots(child.pointers, |out.data|),
           out.layouts + ShiftLayouts(child.layouts, |out.data|))
  }

  function Placement(shape: Shape, packed: bool): Option<nat> {
    if packed then Some(1) else FieldAlignment(shape)
  }

  /** Pads the fields to the alignment of the struct and records where they are, unless that can be recomputed. */
  function Finished(shape: Shape, acc: Fields, recompute: Recompute): Option<Object>
    requires shape.Struct?
  {
    var alignment := FieldAlignment(shape);
    if alignment.None? then None
    else
      var size := AlignUp(|acc.out.data|, alignment.value);
      if size.None? then None
      else
        var out := acc.out.(data := Resized(acc.out.data, size.value));
        if recompute(shape, size.value) == Some(acc.ranges) then Some(out)
        else Some(out.(layouts := out.layouts + [Layout(0, acc.ranges)]))
  }

  function Build(shape: Shape, recompute: Recompute): Option<Object>
    decreases shape, 1
  {
    match shape
    case Scalar(bytes, _) => Some(Object(bytes, [], []))
    case Pointer(target, isNull) => Some(Object(Zeros(8), if isNull then [] else [Slot(0, target)], []))
    case Array(elements, _) => BuildElements(elements, recompute)
    case Struct(fields, packed, _) =>
      var acc := BuildFields(fields, packed, recompute);
      if acc.None? then None else Finished(shape, acc.value, recompute)
  }

  function BuildElements(elements: seq<Shape>, recompute: Recompute): Option<Object>
    decreases elements, 0
  {
    if elements == [] then Some(EMPTY)
    else
      var n := |elements| - 1;
      var out, child := BuildElements(elements[..n], recompute), Build(elements[n], recompute);
      if out.None? || child.None? then None else Some(AddElement(out.value, child.value))
  }

  function BuildFields(fields: seq<Shape>, packed: bool, recompute: Recompute): Option<Fields>
    decreases fields, 0
  {
    if fields == [] then Some(Fields(EMPTY, []))
    else
      var n := |fields| - 1;
      var acc, child, alignment :=
        BuildFields(fields[..n], packed, recompute), Build(fields[n], recompute), Placement(fields[n], packed);
      if acc.None? || child.None? || alignment.None? then None else AddField(acc.value, child.value, alignment.value)
  }

  lemma {:induction false} FailedFieldsStayFailed(fields: seq<Shape>, packed: bool, recompute: Recompute, n: nat)
    requires n <= |fields| && BuildFields(fields[..n], packed, recompute).None?
    ensures BuildFields(fields, packed, recompute).None?
  {
    if n < |fields| {
      assert fields[..|fields| - 1][..n] == fields[..n];
      FailedFieldsStayFailed(fields[..|fields| - 1], packed, recompute, n);
    } else {
      assert fields[..n] == fields;
    }
  }

  lemma {:induction false} FailedElementsStayFailed(elements: seq<Shape>, recompute: Recompute, n: nat)
    requires n <= |elements| && BuildElements(elements[..n], recompute).None?
    ensures BuildElements(elements, recompute).None?
  {
    if n < |elements| {
      assert elements[..|elements| - 1][..n] == elements[..n];
      FailedElementsStayFailed(elements[..|elements| - 1], recompute, n);
    } else {
      assert elements[..n] == elements;
    }
  }

  lemma FieldsOneMore(fields: seq<Shape>, packed: bool, recompute: Recompute, i: nat)
    requires i < |fields|
    ensures var acc, child, alignment :=
        BuildFields(fields[..i], packed, recompute), Build(fields[i], recompute), Placement(fields[i], packed);
      BuildFields(fields[..i + 1], packed, recompute)
      == if acc.None? || child.None? || alignment.None? then None else AddField(acc.value, child.value, alignment.value)
  {
    assert fields[..i + 1][..i] == fields[..i];
  }

  method BuildObject(shape: Shape, recompute: Recompute) returns (o: Option<Object>)
    ensures o == Build(shape, recompute)
    decreases shape, 1
  {
    match shape
    case Scalar(bytes, _) =>
      return Some(Object(bytes, [], []));
    case Pointer(target, isNull) =>
      return Some(Object(Zeros(8), if isNull then [] else [Slot(0, target)], []));
    case Array(elements, _) =>
      o := BuildArray(elements, recompute);
    case Struct(fields, packed, _) =>
      var acc := BuildStructFields(fields, packed, recompute);
      o := if acc.None? then None else Finished(shape, acc.value, recompute);
  }

  method BuildArray(elements: seq<Shape>, recompute: Recompute) returns (o: Option<Object>)
    ensures o == BuildElements(elements, recompute)
    decreases elements, 0
  {
    var out := EMPTY;
    var i := 0;
    while i < |elements|
      invariant i <= |elements|
      invariant BuildElements(elements[..i], recompute) == Some(out)
    {
      var child := BuildObject(elements[i], recompute);
      assert elements[..i + 1][..i] == elements[..i];
      if child.None? {
        FailedElementsStayFailed(elements, recompute, i + 1);
        return None;
      }
      var base := |out.data|;
      out := Object(out.data + child.value.data,
                    out.pointers + ShiftSlots(child.value.pointers, base),
                    out.layouts + ShiftLayouts(child.value.layouts, base));
      i := i + 1;
    }
    assert elements[..i] == elements;
    return Some(out);
  }

  method PlaceField(acc: Fields, child: Object, alignment: nat) returns (r: Option<Fields>)
    ensures r == AddField(acc, child, alignment)
    ensures r.Some? ==> exists base ::
      && AlignUp(|acc.out.data|, alignment) == Some(base) && |acc.out.data| <= base
      && r.value == Fields(Placed(acc.out, base, child), acc.ranges + [Range(base, base + |child.data|)])
  {
    var base := AlignUp(|acc.out.data|, alignment);
    if base.None? || base.value + |child.data| > USIZE_MAX {
      return None;
    }
    var out := acc.out.(data := Resized(acc.out.data, base.value));
    var merged := Merged(out, base.value, child);
    if merged.None? {
      return None;
    }
    AddFieldPlaces(acc, child, alignment);
    return Some(Fields(merged.value, acc.ranges + [Range(base.value, base.value + |child.data|)]));
  }

  method BuildNextField(fields: seq<Shape>, packed: bool, recompute: Recompute, i: nat, acc: Fields)
    returns (r: Option<Fields>)
    requires i < |fields|
    ensures BuildFields(fields[..i], packed, recompute) == Some(acc)
      ==> r == BuildFields(fields[..i + 1], packed, recompute)
    decreases fields, 0, 0
  {
    var child := BuildObject(fields[i], recompute);
    var alignment := Placement(fields[i], packed);
    FieldsOneMore(fields, packed, recompute, i);
    if child.None? || alignment.None? {
      return None;
    }
    r := PlaceField(acc, child.value, alignment.value);
  }

  method BuildStructFields(fields: seq<Shape>, packed: bool, recompute: Recompute) returns (r: Option<Fields>)
    ensures r == BuildFields(fields, packed, recompute)
    decreases fields, 0, 1
  {
    r := Some(Fields(EMPTY, []));
    var i := 0;
    while i < |fields| && r.Some?
      invariant i <= |fields|
      invariant r == BuildFields(fields[..i], packed, recompute)
    {
      r := BuildNextField(fields, packed, recompute, i, r.value);
      i := i + 1;
    }
    if r.None? {
      FailedFieldsStayFailed(fields, packed, recompute, i);
    } else {
      assert fields[..i] == fields;
    }
  }

  // ---------------------------------------------------------------- what one more child does

  /** Eight zero bytes at every slot, slots in order and apart from each other, layouts in order and inside the data. */
  ghost predicate WellLaid(o: Object) {
    && (forall i :: 0 <= i < |o.pointers| ==> EightZerosAt(o.data, o.pointers[i].offset))
    && (forall i, j :: 0 <= i < j < |o.pointers| ==> o.pointers[i].offset + 8 <= o.pointers[j].offset)
    && (forall i :: 0 <= i < |o.layouts| ==> InOrder(o.layouts[i].ranges, o.layouts[i].base, |o.data|))
  }

  predicate EightZerosAt(data: seq<byte>, at: nat) {
    at + 8 <= |data| && forall k :: at <= k < at + 8 ==> data[k] == 0
  }

  /** Ranges that follow one another between `low` and `high`. */
  ghost predicate InOrder(ranges: seq<Range>, low: nat, high: nat) {
    && (forall i :: 0 <= i < |ranges| ==> low <= ranges[i].start <= ranges[i].end <= high)
    && (forall i, j :: 0 <= i < j < |ranges| ==> ranges[i].end <= ranges[j].start)
  }

  /** `child` put at `base`, after everything in `out`. */
  function Placed(out: Object, base: nat, child: Object): Object
    requires |out.data| <= base
  {
    Object(out.data + Zeros(base - |out.data|) + child.data,
           out.pointers + ShiftSlots(child.pointers, base),
           out.layouts + ShiftLayouts(child.layouts, base))
  }

  lemma AddElementPlaces(out: Object, child: Object)
    ensures AddElement(out, child) == Placed(out, |out.data|, child)
  {
  }

  lemma AddFieldPlaces(acc: Fields, child: Object, alignment: nat)
    requires AddField(acc, child, alignment).Some?
    ensures var base := AlignUp(|acc.out.data|, alignment).value;
      && |acc.out.data| <= base
      && AddField(acc, child, alignment).value
         == Fields(Placed(acc.out, base, child), acc.ranges + [Range(base, base + |child.data|)])
  {
    AlignUpBounds(|acc.out.data|, alignment);
    var base := AlignUp(|acc.out.data|, alignment).value;
    var padded := Resized(acc.out.data, base);
    assert padded == acc.out.data + Zeros(base - |acc.out.data|);
    WritingAtTheEndAppends(padded, child.data);
  }

  lemma WritingAtTheEndAppends(data: seq<byte>, bytes: seq<byte>)
    requires |data| + |bytes| <= USIZE_MAX
    ensures Written(data, |data|, bytes) == Some(data + bytes)
  {
    var end := |data| + |bytes|;
    var grown := if |data| < end then Resized(data, end) else data;
    assert grown[..|data|] == data && grown[end..] == [];
    assert data + bytes + [] == data + bytes;
  }

  lemma PlacedSlotIsZero(out: Object, base: nat, child: Object, i: nat)
    requires |out.data| <= base && WellLaid(out) && WellLaid(child) && i < |out.pointers| + |child.pointers|
    ensures EightZerosAt(Placed(out, base, child).data, Placed(out, base, child).pointers[i].offset)
  {
    var data := out.data + Zeros(base - |out.data|) + child.data;
    if i < |out.pointers| {
      assert EightZerosAt(out.data, out.pointers[i].offset);
    } else {
      var at := child.pointers[i - |out.pointers|].offset;
      assert EightZerosAt(child.data, at);
      assert forall k :: base <= k < |data| ==> data[k] == child.data[k - base];
    }
  }

  lemma PlacedLayoutInOrder(out: Object, base: nat, child: Object, i: nat)
    requires |out.data| <= base && WellLaid(out) && WellLaid(child) && i < |out.layouts| + |child.layouts|
    ensures var o := Placed(out, base, child);
      InOrder(o.layouts[i].ranges, o.layouts[i].base, |o.data|)
  {
    if i < |out.layouts| {
      assert InOrder(out.layouts[i].ranges, out.layouts[i].base, |out.data|);
    } else {
      var l := child.layouts[i - |out.layouts|];
      assert InOrder(l.ranges, l.base, |child.data|);
    }
  }

  lemma PlacedStaysWellLaid(out: Object, base: nat, child: Object)
    requires |out.data| <= base && WellLaid(out) && WellLaid(child)
    ensures WellLaid(Placed(out, base, child))
  {
    var o := Placed(out, base, child);
    forall i | 0 <= i < |o.pointers| ensures EightZerosAt(o.data, o.pointers[i].offset) {
      PlacedSlotIsZero(out, base, child, i);
    }
    forall i | 0 <= i < |o.layouts| ensures InOrder(o.layouts[i].ranges, o.layouts[i].base, |o.data|) {
      PlacedLayoutInOrder(out, base, child, i);
    }
    forall i, j | 0 <= i < j < |o.pointers| ensures o.pointers[i].offset + 8 <= o.pointers[j].offset {
    }
  }

  lemma GrownStaysWellLaid(out: Object, n: nat)
    requires WellLaid(out) && |out.data| <= n
    ensures WellLaid(out.(data := Resized(out.data, n)))
  {
  }

  // ---------------------------------------------------------------- where the fields of a struct are

  /** Field `i` has its own bytes at its range, at an offset its alignment divides. */
  ghost predicate FieldAt(data: seq<byte>, range: Range, field: Shape, packed: bool, recompute: Recompute) {
    && range.start <= range.end <= |data|
    && Build(field, recompute).Some? && data[range.start..range.end] == Build(field, recompute).value.data
    && Placement(field, packed).Some?
    && (IsPowerOfTwo(Placement(field, packed).value) ==> range.start % Placement(field, packed).value == 0)
  }

  function ChildSlots(fields: seq<Shape>, ranges: seq<Range>, recompute: Recompute): seq<Slot>
    requires |fields| == |ranges| && forall i :: 0 <= i < |fields| ==> Build(fields[i], recompute).Some?
  {
    if fields == [] then []
    else
      var n := |fields| - 1;
      ChildSlots(fields[..n], ranges[..n], recompute)
      + ShiftSlots(Build(fields[n], recompute).value.pointers, ranges[n].start)
  }

  function ChildLayouts(fields: seq<Shape>, ranges: seq<Range>, recompute: Recompute): seq<Layout>
    requires |fields| == |ranges| && forall i :: 0 <= i < |fields| ==> Build(fields[i], recompute).Some?
  {
    if fields == [] then []
    else
      var n := |fields| - 1;
      ChildLayouts(fields[..n], ranges[..n], recompute)
      + ShiftLayouts(Build(fields[n], recompute).value.layouts, ranges[n].start)
  }

  /** Outside the fields there is only padding. */
  ghost predicate PaddedWithZeros(data: seq<byte>, ranges: seq<Range>) {
    forall k :: 0 <= k < |data| && (forall i :: 0 <= i < |ranges| ==> !(ranges[i].start <= k < ranges[i].end))
      ==> data[k] == 0
  }

  ghost predicate AllFieldsAt(
    data: seq<byte>, ranges: seq<Range>, fields: seq<Shape>, packed: bool, recompute: Recompute)
  {
    |ranges| == |fields| && forall i :: 0 <= i < |fields| ==> FieldAt(data, ranges[i], fields[i], packed, recompute)
  }

  /** Every field in its place, in order, and nothing but zeros in between. */
  ghost predicate FieldsSpread(
    data: seq<byte>, ranges: seq<Range>, fields: seq<Shape>, packed: bool, recompute: Recompute)
  {
    AllFieldsAt(data, ranges, fields, packed, recompute) && InOrder(ranges, 0, |data|) && PaddedWithZeros(data, ranges)
  }

  /** The fields are spread over the data, and the children's slots and layouts are moved along. */
  ghost predicate FieldsLaid(acc: Fields, fields: seq<Shape>, packed: bool, recompute: Recompute) {
    && FieldsSpread(acc.out.data, acc.ranges, fields, packed, recompute)
    && acc.out.pointers == ChildSlots(fields, acc.ranges, recompute)
    && acc.out.layouts == ChildLayouts(fields, acc.ranges, recompute)
  }

  lemma SliceStays(data: seq<byte>, longer: seq<byte>, range: Range)
    requires range.start <= range.end <= |data| <= |longer| && longer[..|data|] == data
    ensures longer[range.start..range.end] == data[range.start..range.end]
  {
    forall k | range.start <= k < range.end ensures longer[k] == data[k] {
      assert longer[..|data|][k] == longer[k];
    }
  }

  lemma FieldAtStays(data: seq<byte>, longer: seq<byte>, range: Range, field: Shape, packed: bool, recompute: Recompute)
    requires FieldAt(data, range, field, packed, recompute) && |data| <= |longer| && longer[..|data|] == data
    ensures FieldAt(longer, range, field, packed, recompute)
  {
    SliceStays(data, longer, range);
  }

  lemma AddFieldKeepsPlaces(
    data: seq<byte>, ranges: seq<Range>, fields: seq<Shape>, packed: bool, recompute: Recompute, n: nat,
    longer: seq<byte>, last: Range)
    requires n + 1 == |fields| && AllFieldsAt(data, ranges, fields[..n], packed, recompute)
    requires |data| <= |longer| && longer[..|data|] == data && FieldAt(longer, last, fields[n], packed, recompute)
    ensures AllFieldsAt(longer, ranges + [last], fields, packed, recompute)
  {
    forall i | 0 <= i < |fields| ensures FieldAt(longer, (ranges + [last])[i], fields[i], packed, recompute) {
      if i < n {
        assert fields[..n][i] == fields[i];
        FieldAtStays(data, longer, ranges[i], fields[i], packed, recompute);
      }
    }
  }

  lemma PaddedThenBytes(data: seq<byte>, base: nat, bytes: seq<byte>)
    requires |data| <= base
    ensures (data + Zeros(base - |data|) + bytes)[base..base + |bytes|] == bytes
  {
  }

  lemma NewFieldAt(data: seq<byte>, field: Shape, packed: bool, recompute: Recompute)
    requires Build(field, recompute).Some? && Placement(field, packed).Some?
    requires AlignUp(|data|, Placement(field, packed).value).Some?
    ensures
      var base, bytes := AlignUp(|data|, Placement(field, packed).value).value, Build(field, recompute).value.data;
      && |data| <= base
      && FieldAt(data + Zeros(base - |data|) + bytes, Range(base, base + |bytes|), field, packed, recompute)
  {
    var alignment, bytes := Placement(field, packed).value, Build(field, recompute).value.data;
    AlignUpBounds(|data|, alignment);
    var base := AlignUp(|data|, alignment).value;
    PaddedThenBytes(data, base, bytes);
    if IsPowerOfTwo(alignment) {
      AlignUpAligns(|data|, alignment);
    }
  }

  lemma ChildrenOneMore(fields: seq<Shape>, ranges: seq<Range>, recompute: Recompute, n: nat, last: Range)
    requires n + 1 == |fields| && |ranges| == n && forall i :: 0 <= i < |fields| ==> Build(fields[i], recompute).Some?
    ensures ChildSlots(fields, ranges + [last], recompute)
         == ChildSlots(fields[..n], ranges, recompute)
           + ShiftSlots(Build(fields[n], recompute).value.pointers, last.start)
    ensures ChildLayouts(fields, ranges + [last], recompute)
         == ChildLayouts(fields[..n], ranges, recompute)
           + ShiftLayouts(Build(fields[n], recompute).value.layouts, last.start)
  {
    assert (ranges + [last])[..n] == ranges;
  }

  lemma PlacedRangesInOrder(ranges: seq<Range>, high: nat, base: nat, size: nat)
    requires InOrder(ranges, 0, high) && high <= base
    ensures InOrder(ranges + [Range(base, base + size)], 0, base + size)
  {
  }

  lemma AddFieldLays(acc: Fields, fields: seq<Shape>, packed: bool, recompute: Recompute, n: nat)
    requires n + 1 == |fields| && FieldsLaid(acc, fields[..n], packed, recompute)
    requires Build(fields[n], recompute).Some? && Placement(fields[n], packed).Some?
    requires AddField(acc, Build(fields[n], recompute).value, Placement(fields[n], packed).value).Some?
    ensures FieldsLaid(AddField(acc, Build(fields[n], recompute).value, Placement(fields[n], packed).value).value,
                       fields, packed, recompute)
  {
    var child, alignment := Build(fields[n], recompute).value, Placement(fields[n], packed).value;
    AddFieldPlaces(acc, child, alignment);
    var base := AlignUp(|acc.out.data|, alignment).value;
    FieldPlacedLays(acc, fields, packed, recompute, n, child, base);
  }

  lemma PlacedFieldsAt(
    acc: Fields, fields: seq<Shape>, packed: bool, recompute: Recompute, n: nat, child: Object, base: nat)
    requires n + 1 == |fields| && AllFieldsAt(acc.out.data, acc.ranges, fields[..n], packed, recompute)
    requires Build(fields[n], recompute) == Some(child) && Placement(fields[n], packed).Some?
    requires AlignUp(|acc.out.data|, Placement(fields[n], packed).value) == Some(base) && |acc.out.data| <= base
    ensures AllFieldsAt(Placed(acc.out, base, child).data, acc.ranges + [Range(base, base + |child.data|)],
                        fields, packed, recompute)
  {
    var last, longer := Range(base, base + |child.data|), Placed(acc.out, base, child).data;
    assert longer[..|acc.out.data|] == acc.out.data;
    NewFieldAt(acc.out.data, fields[n], packed, recompute);
    AddFieldKeepsPlaces(acc.out.data, acc.ranges, fields, packed, recompute, n, longer, last);
  }

  lemma FieldsAtAreBuilt(data: seq<byte>, ranges: seq<Range>, fields: seq<Shape>, packed: bool, recompute: Recompute)
    requires AllFieldsAt(data, ranges, fields, packed, recompute)
    ensures forall i :: 0 <= i < |fields| ==> Build(fields[i], recompute).Some?
  {
    forall i | 0 <= i < |fields| ensures Build(fields[i], recompute).Some? {
      assert FieldAt(data, ranges[i], fields[i], packed, recompute);
    }
  }

  lemma PlacedFieldsSpread(
    acc: Fields, fields: seq<Shape>, packed: bool, recompute: Recompute, n: nat, child: Object, base: nat)
    requires n + 1 == |fields| && FieldsSpread(acc.out.data, acc.ranges, fields[..n], packed, recompute)
    requires Build(fields[n], recompute) == Some(child) && Placement(fields[n], packed).Some?
    requires AlignUp(|acc.out.data|, Placement(fields[n], packed).value) == Some(base) && |acc.out.data| <= base
    ensures FieldsSpread(Placed(acc.out, base, child).data, acc.ranges + [Range(base, base + |child.data|)],
                         fields, packed, recompute)
  {
    PlacedFieldsAt(acc, fields, packed, recompute, n, child, base);
    PlacedRangesInOrder(acc.ranges, |acc.out.data|, base, |child.data|);
    PaddingStays(acc.out.data, acc.ranges, base, child.data);
  }

  lemma FieldPlacedLays(
    acc: Fields, fields: seq<Shape>, packed: bool, recompute: Recompute, n: nat, child: Object, base: nat)
    requires n + 1 == |fields| && FieldsLaid(acc, fields[..n], packed, recompute)
    requires Build(fields[n], recompute) == Some(child) && Placement(fields[n], packed).Some?
    requires AlignUp(|acc.out.data|, Placement(fields[n], packed).value) == Some(base) && |acc.out.data| <= base
    ensures FieldsLaid(Fields(Placed(acc.out, base, child), acc.ranges + [Range(base, base + |child.data|)]),
                       fields, packed, recompute)
  {
    var out, last := Placed(acc.out, base, child), Range(base, base + |child.data|);
    PlacedFieldsSpread(acc, fields, packed, recompute, n, child, base);
    FieldsAtAreBuilt(out.data, acc.ranges + [last], fields, packed, recompute);
    ChildrenOneMore(fields, acc.ranges, recompute, n, last);
  }

  lemma PaddingStays(data: seq<byte>, ranges: seq<Range>, base: nat, bytes: seq<byte>)
    requires |data| <= base && PaddedWithZeros(data, ranges)
    ensures PaddedWithZeros(data + Zeros(base - |data|) + bytes, ranges + [Range(base, base + |bytes|)])
  {
    var longer, more := data + Zeros(base - |data|) + bytes, ranges + [Range(base, base + |bytes|)];
    forall k | 0 <= k < |longer| && (forall i :: 0 <= i < |more| ==> !(more[i].start <= k < more[i].end))
      ensures longer[k] == 0
    {
      assert more[|ranges|] == Range(base, base + |bytes|);
      assert forall i :: 0 <= i < |ranges| ==> more[i] == ranges[i];
      assert k < base;
      if k < |data| {
        assert longer[k] == data[k];
      }
    }
  }

  lemma {:induction false} FieldsAreLaid(fields: seq<Shape>, packed: bool, recompute: Recompute)
    requires BuildFields(fields, packed, recompute).Some?
    ensures FieldsLaid(BuildFields(fields, packed, recompute).value, fields, packed, recompute)
  {
    if fields != [] {
      var n := |fields| - 1;
      FieldsAreLaid(fields[..n], packed, recompute);
      AddFieldLays(BuildFields(fields[..n], packed, recompute).value, fields, packed, recompute, n);
    }
  }

  // ---------------------------------------------------------------- whole objects

  lemma {:induction false} BuildIsWellLaid(shape: Shape, recompute: Recompute)
    requires Build(shape, recompute).Some?
    ensures WellLaid(Build(shape, recompute).value)
    decreases shape, 1
  {
    match shape
    case Scalar(_, _) =>
    case Pointer(_, _) =>
    case Array(elements, _) => ElementsAreWellLaid(elements, recompute);
    case Struct(fields, packed, _) =>
      FieldsAreWellLaid(fields, packed, recompute);
      FieldsAreLaid(fields, packed, recompute);
      FinishedIsWellLaid(shape, BuildFields(fields, packed, recompute).value, recompute);
  }

  lemma FinishedIsWellLaid(shape: Shape, acc: Fields, recompute: Recompute)
    requires shape.Struct? && Finished(shape, acc, recompute).Some?
    requires WellLaid(acc.out) && InOrder(acc.ranges, 0, |acc.out.data|)
    ensures WellLaid(Finished(shape, acc, recompute).value)
  {
    AlignUpBounds(|acc.out.data|, FieldAlignment(shape).value);
    var size := AlignUp(|acc.out.data|, FieldAlignment(shape).value).value;
    GrownStaysWellLaid(acc.out, size);
    assert InOrder(acc.ranges, 0, size);
  }

  lemma {:induction false} ElementsAreWellLaid(elements: seq<Shape>, recompute: Recompute)
    requires BuildElements(elements, recompute).Some?
    ensures WellLaid(BuildElements(elements, recompute).value)
    decreases elements, 0
  {
    if elements != [] {
      var n := |elements| - 1;
      ElementsAreWellLaid(elements[..n], recompute);
      BuildIsWellLaid(elements[n], recompute);
      var out, child := BuildElements(elements[..n], recompute).value, Build(elements[n], recompute).value;
      AddElementPlaces(out, child);
      PlacedStaysWellLaid(out, |out.data|, child);
    }
  }

  lemma {:induction false} FieldsAreWellLaid(fields: seq<Shape>, packed: bool, recompute: Recompute)
    requires BuildFields(fields, packed, recompute).Some?
    ensures WellLaid(BuildFields(fields, packed, recompute).value.out)
    decreases fields, 0
  {
    if fields != [] {
      var n := |fields| - 1;
      FieldsAreWellLaid(fields[..n], packed, recompute);
      BuildIsWellLaid(fields[n], recompute);
      var acc, child := BuildFields(fields[..n], packed, recompute).value, Build(fields[n], recompute).value;
      AddFieldPlaces(acc, child, Placement(fields[n], packed).value);
      PlacedStaysWellLaid(acc.out, AlignUp(|acc.out.data|, Placement(fields[n], packed).value).value, child);
    }
  }

  /** The ranges of the fields of a struct that could be built. */
  function FieldRanges(shape: Shape, recompute: Recompute): seq<Range>
    requires shape.Struct? && BuildFields(shape.fields, shape.packed, recompute).Some?
  {
    BuildFields(shape.fields, shape.packed, recompute).value.ranges
  }

  /** What the padding at the end does to the laid-out fields. */
  lemma FinishedParts(shape: Shape, recompute: Recompute)
    requires shape.Struct? && Build(shape, recompute).Some?
    ensures BuildFields(shape.fields, shape.packed, recompute).Some? && FieldAlignment(shape).Some?
    ensures var acc, o := BuildFields(shape.fields, shape.packed, recompute).value, Build(shape, recompute).value;
      && |acc.out.data| <= |o.data| && o.data == Resized(acc.out.data, |o.data|) && o.pointers == acc.out.pointers
      && o.layouts == acc.out.layouts
                      + (if recompute(shape, |o.data|) == Some(acc.ranges) then [] else [Layout(0, acc.ranges)])
    ensures IsPowerOfTwo(FieldAlignment(shape).value) ==>
      |Build(shape, recompute).value.data| % FieldAlignment(shape).value == 0
  {
    var size := |BuildFields(shape.fields, shape.packed, recompute).value.out.data|;
    var alignment := FieldAlignment(shape).value;
    AlignUpBounds(size, alignment);
    if IsPowerOfTwo(alignment) {
      AlignUpAligns(size, alignment);
    }
  }

  /**
   In every struct that could be built the fields follow one another inside the data, each at an offset its
   alignment divides and with its own bytes; the rest is zero padding up to the alignment of the struct; the
   slots and layouts of the fields are moved along; and the ranges are recorded unless they can be recomputed.
   */
  lemma StructIsLaidOut(shape: Shape, recompute: Recompute)
    requires shape.Struct? && Build(shape, recompute).Some?
    ensures BuildFields(shape.fields, shape.packed, recompute).Some?
    ensures var o, ranges := Build(shape, recompute).value, FieldRanges(shape, recompute);
      && AllFieldsAt(o.data, ranges, shape.fields, shape.packed, recompute)
      && InOrder(ranges, 0, |o.data|)
      && PaddedWithZeros(o.data, ranges)
      && o.pointers == ChildSlots(shape.fields, ranges, recompute)
      && o.layouts == ChildLayouts(shape.fields, ranges, recompute)
                      + (if recompute(shape, |o.data|) == Some(ranges) then [] else [Layout(0, ranges)])
      && FieldAlignment(shape).Some?
      && (IsPowerOfTwo(FieldAlignment(shape).value) ==> |o.data| % FieldAlignment(shape).value == 0)
  {
    FinishedParts(shape, recompute);
    FieldsAreLaid(shape.fields, shape.packed, recompute);
    var acc, size := BuildFields(shape.fields, shape.packed, recompute).value, |Build(shape, recompute).value.data|;
    GrowthKeepsFields(acc.out.data, acc.ranges, shape.fields, shape.packed, recompute, size);
  }

  lemma GrowthKeepsFields(
    data: seq<byte>, ranges: seq<Range>, fields: seq<Shape>, packed: bool, recompute: Recompute, size: nat)
    requires |data| <= size && AllFieldsAt(data, ranges, fields, packed, recompute)
    requires InOrder(ranges, 0, |data|) && PaddedWithZeros(data, ranges)
    ensures AllFieldsAt(Resized(data, size), ranges, fields, packed, recompute)
    ensures InOrder(ranges, 0, size) && PaddedWithZeros(Resized(data, size), ranges)
  {
    var longer := Resized(data, size);
    assert longer[..|data|] == data;
    forall i | 0 <= i < |fields| ensures FieldAt(longer, ranges[i], fields[i], packed, recompute) {
      FieldAtStays(data, longer, ranges[i], fields[i], packed, recompute);
    }
    forall k | 0 <= k < size && (forall i :: 0 <= i < |ranges| ==> !(ranges[i].start <= k < ranges[i].end))
      ensures longer[k] == 0
    {
      if k < |data| {
        assert longer[k] == data[k];
      }
    }
  }

  // ---------------------------------------------------------------- structs at any depth

  /** A struct somewhere in an object, at the absolute offset `base`. */
  datatype Located = Located(base: nat, struct: Shape)

  predicate Buildable(shape: Shape, recompute: Recompute) {
    shape.Struct? && Build(shape, recompute).Some?
  }

  lemma BuildableHasFields(shape: Shape, recompute: Recompute)
    requires Buildable(shape, recompute)
    ensures BuildFields(shape.fields, shape.packed, recompute).Some?
  {
  }

  function ShiftLocated(ls: seq<Located>, delta: nat): (r: seq<Located>)
    ensures |r| == |ls|
    ensures forall i :: 0 <= i < |ls| ==> r[i] == Located(ls[i].base + delta, ls[i].struct)
  {
    seq(|ls|, i requires 0 <= i < |ls| => Located(ls[i].base + delta, ls[i].struct))
  }

  /** The structs in an object that could be built, inner ones before the ones they are in. */
  function Structs(shape: Shape, recompute: Recompute): seq<Located>
    decreases shape, 1
  {
    match shape
    case Scalar(_, _) => []
    case Pointer(_, _) => []
    case Array(elements, _) => ElementStructs(elements, recompute)
    case Struct(fields, packed, _) => FieldStructs(fields, packed, recompute) + [Located(0, shape)]
  }

  function ElementStructs(elements: seq<Shape>, recompute: Recompute): seq<Located>
    decreases elements, 0
  {
    if elements == [] then []
    else
      var n := |elements| - 1;
      var before := BuildElements(elements[..n], recompute);
      ElementStructs(elements[..n], recompute)
      + ShiftLocated(Structs(elements[n], recompute), if before.Some? then |before.value.data| else 0)
  }

  function FieldStructs(fields: seq<Shape>, packed: bool, recompute: Recompute): seq<Located>
    decreases fields, 0
  {
    if fields == [] then []
    else
      var n := |fields| - 1;
      var acc := BuildFields(fields, packed, recompute);
      FieldStructs(fields[..n], packed, recompute)
      + ShiftLocated(Structs(fields[n], recompute),
                     if acc.Some? && acc.value.ranges != [] then acc.value.ranges[|acc.value.ranges| - 1].start else 0)
  }

  /** The bytes `own` are at `base`. */
  ghost predicate HoldsAt(data: seq<byte>, base: nat, own: seq<byte>) {
    base + |own| <= |data| && data[base..base + |own|] == own
  }

  /** For each struct its own bytes. */
  function OwnBytes(recompute: Recompute): Shape -> Option<seq<byte>> {
    shape => if Buildable(shape, recompute) then Some(Build(shape, recompute).value.data) else None
  }

  /** The struct's own bytes are at its place in `data`. */
  ghost predicate Sits(data: seq<byte>, l: Located, own: Shape -> Option<seq<byte>>) {
    own(l.struct).Some? && HoldsAt(data, l.base, own(l.struct).value)
  }

  ghost predicate AllSit(data: seq<byte>, ls: seq<Located>, own: Shape -> Option<seq<byte>>) {
    forall i :: 0 <= i < |ls| ==> Sits(data, ls[i], own)
  }

  /** For each struct its ranges, relative to itself, unless they can be recomputed. */
  function OwnLayouts(recompute: Recompute): Shape -> seq<Layout> {
    shape => OwnLayout(shape, recompute)
  }

  function OwnLayout(shape: Shape, recompute: Recompute): seq<Layout> {
    if !Buildable(shape, recompute) then []
    else
      BuildableHasFields(shape, recompute);
      var ranges := FieldRanges(shape, recompute);
      if recompute(shape, |Build(shape, recompute).value.data|) == Some(ranges) then [] else [Layout(0, ranges)]
  }

  /** What is recorded for the structs, each moved to its place. */
  function Recorded(ls: seq<Located>, own: Shape -> seq<Layout>): seq<Layout> {
    if ls == [] then []
    else
      var n := |ls| - 1;
      Recorded(ls[..n], own) + ShiftLayouts(own(ls[n].struct), ls[n].base)
  }

  lemma SliceOfSlice(data: seq<byte>, own: seq<byte>, base: nat, range: Range)
    requires HoldsAt(data, base, own) && range.start <= range.end <= |own|
    ensures data[base + range.start..base + range.end] == own[range.start..range.end]
  {
    var outer, inner := data[base + range.start..base + range.end], own[range.start..range.end];
    forall k | 0 <= k < |inner| ensures outer[k] == inner[k] {
      assert data[base..base + |own|][range.start + k] == data[base + range.start + k];
    }
  }

  lemma HoldsFurther(inner: seq<byte>, data: seq<byte>, at: nat, base: nat, own: seq<byte>)
    requires HoldsAt(inner, base, own) && HoldsAt(data, at, inner)
    ensures HoldsAt(data, base + at, own)
  {
    SliceOfSlice(data, inner, at, Range(base, base + |own|));
    assert data[at + base..at + (base + |own|)] == own;
  }

  lemma SitsFurther(inner: seq<byte>, data: seq<byte>, at: nat, l: Located, own: Shape -> Option<seq<byte>>)
    requires Sits(inner, l, own) && HoldsAt(data, at, inner)
    ensures Sits(data, Located(l.base + at, l.struct), own)
  {
    HoldsFurther(inner, data, at, l.base, own(l.struct).value);
  }

  lemma AllSitFurther(inner: seq<byte>, data: seq<byte>, at: nat, ls: seq<Located>, own: Shape -> Option<seq<byte>>)
    requires AllSit(inner, ls, own) && HoldsAt(data, at, inner)
    ensures AllSit(data, ShiftLocated(ls, at), own)
  {
    forall i | 0 <= i < |ls| ensures Sits(data, ShiftLocated(ls, at)[i], own) {
      SitsFurther(inner, data, at, ls[i], own);
    }
  }

  lemma AllSitStill(data: seq<byte>, longer: seq<byte>, ls: seq<Located>, own: Shape -> Option<seq<byte>>)
    requires AllSit(data, ls, own) && |data| <= |longer| && longer[..|data|] == data
    ensures AllSit(longer, ls, own)
  {
    assert longer[0..0 + |data|] == data;
    AllSitFurther(data, longer, 0, ls, own);
    assert ShiftLocated(ls, 0) == ls;
  }

  lemma AllSitConcat(data: seq<byte>, a: seq<Located>, b: seq<Located>, own: Shape -> Option<seq<byte>>)
    requires AllSit(data, a, own) && AllSit(data, b, own)
    ensures AllSit(data, a + b, own)
  {
  }

  lemma {:induction false} RecordedConcat(a: seq<Located>, b: seq<Located>, own: Shape -> seq<Layout>)
    ensures Recorded(a + b, own) == Recorded(a, own) + Recorded(b, own)
  {
    if b == [] {
      assert a + b == a;
    } else {
      assert (a + b)[..|a + b| - 1] == a + b[..|b| - 1];
      RecordedConcat(a, b[..|b| - 1], own);
    }
  }

  lemma ShiftLayoutsConcat(a: seq<Layout>, b: seq<Layout>, delta: nat)
    ensures ShiftLayouts(a + b, delta) == ShiftLayouts(a, delta) + ShiftLayouts(b, delta)
  {
  }

  lemma ShiftLayoutsTwice(layouts: seq<Layout>, base: nat, delta: nat)
    ensures ShiftLayouts(ShiftLayouts(layouts, base), delta) == ShiftLayouts(layouts, base + delta)
  {
    forall i | 0 <= i < |layouts|
      ensures ShiftLayouts(ShiftLayouts(layouts, base), delta)[i] == ShiftLayouts(layouts, base + delta)[i]
    {
      var ranges := layouts[i].ranges;
      assert ShiftRanges(ShiftRanges(ranges, base), delta) == ShiftRanges(ranges, base + delta);
    }
  }

  lemma {:induction false} RecordedMoves(ls: seq<Located>, delta: nat, own: Shape -> seq<Layout>)
    ensures Recorded(ShiftLocated(ls, delta), own) == ShiftLayouts(Recorded(ls, own), delta)
  {
    if ls != [] {
      var n, moved := |ls| - 1, ShiftLocated(ls, delta);
      assert moved[..n] == ShiftLocated(ls[..n], delta);
      RecordedMoves(ls[..n], delta, own);
      ShiftLayoutsTwice(own(ls[n].struct), ls[n].base, delta);
      ShiftLayoutsConcat(Recorded(ls[..n], own), ShiftLayouts(own(ls[n].struct), ls[n].base), delta);
    }
  }

  /** The structs listed for a shape sit in its object, and the layouts of the object are those recorded for them. */
  ghost predicate Accounted(o: Object, ls: seq<Located>, recompute: Recompute) {
    AllSit(o.data, ls, OwnBytes(recompute)) && o.layouts == Recorded(ls, OwnLayouts(recompute))
  }

  lemma PlacedIsAccounted(
    out: Object, ls: seq<Located>, base: nat, child: Object, inner: seq<Located>, recompute: Recompute)
    requires |out.data| <= base && Accounted(out, ls, recompute) && Accounted(child, inner, recompute)
    ensures Accounted(Placed(out, base, child), ls + ShiftLocated(inner, base), recompute)
  {
    var o, moved := Placed(out, base, child), ShiftLocated(inner, base);
    assert AllSit(o.data, ls + moved, OwnBytes(recompute)) by {
      assert o.data[..|out.data|] == out.data && o.data[base..base + |child.data|] == child.data;
      AllSitStill(out.data, o.data, ls, OwnBytes(recompute));
      AllSitFurther(child.data, o.data, base, inner, OwnBytes(recompute));
      AllSitConcat(o.data, ls, moved, OwnBytes(recompute));
    }
    assert o.layouts == Recorded(ls + moved, OwnLayouts(recompute)) by {
      RecordedConcat(ls, moved, OwnLayouts(recompute));
      RecordedMoves(inner, base, OwnLayouts(recompute));
    }
  }

  lemma {:induction false} ObjectIsAccounted(shape: Shape, recompute: Recompute)
    requires Build(shape, recompute).Some?
    ensures Accounted(Build(shape, recompute).value, Structs(shape, recompute), recompute)
    decreases shape, 1
  {
    match shape
    case Scalar(_, _) =>
    case Pointer(_, _) =>
    case Array(elements, _) => ElementsAreAccounted(elements, recompute);
    case Struct(fields, packed, _) =>
      BuildableHasFields(shape, recompute);
      FieldsAreAccounted(fields, packed, recompute);
      FinishedIsAccounted(shape, recompute);
  }

  lemma {:induction false} ElementsAreAccounted(elements: seq<Shape>, recompute: Recompute)
    requires BuildElements(elements, recompute).Some?
    ensures Accounted(BuildElements(elements, recompute).value, ElementStructs(elements, recompute), recompute)
    decreases elements, 0
  {
    if elements != [] {
      var n := |elements| - 1;
      ElementsAreAccounted(elements[..n], recompute);
      ObjectIsAccounted(elements[n], recompute);
      var out, child := BuildElements(elements[..n], recompute).value, Build(elements[n], recompute).value;
      AddElementPlaces(out, child);
      PlacedIsAccounted(out, ElementStructs(elements[..n], recompute), |out.data|, child,
                        Structs(elements[n], recompute), recompute);
    }
  }

  lemma {:induction false} FieldsAreAccounted(fields: seq<Shape>, packed: bool, recompute: Recompute)
    requires BuildFields(fields, packed, recompute).Some?
    ensures Accounted(BuildFields(fields, packed, recompute).value.out,
                      FieldStructs(fields, packed, recompute), recompute)
    decreases fields, 0
  {
    if fields != [] {
      var n := |fields| - 1;
      FieldsAreAccounted(fields[..n], packed, recompute);
      ObjectIsAccounted(fields[n], recompute);
      var acc, child := BuildFields(fields[..n], packed, recompute).value, Build(fields[n], recompute).value;
      var alignment := Placement(fields[n], packed).value;
      AddFieldPlaces(acc, child, alignment);
      PlacedIsAccounted(acc.out, FieldStructs(fields[..n], packed, recompute), AlignUp(|acc.out.data|, alignment).value,
                        child, Structs(fields[n], recompute), recompute);
    }
  }

  lemma RecordedAlone(shape: Shape, own: Shape -> seq<Layout>)
    ensures Recorded([Located(0, shape)], own) == own(shape)
  {
    var ls := [Located(0, shape)];
    assert ls[..0] == [];
    forall i | 0 <= i < |own(shape)| ensures ShiftLayouts(own(shape), 0)[i] == own(shape)[i] {
      assert ShiftRanges(own(shape)[i].ranges, 0) == own(shape)[i].ranges;
    }
  }

  lemma FinishedIsAccounted(shape: Shape, recompute: Recompute)
    requires Buildable(shape, recompute) && BuildFields(shape.fields, shape.packed, recompute).Some?
    requires Accounted(BuildFields(shape.fields, shape.packed, recompute).value.out,
                       FieldStructs(shape.fields, shape.packed, recompute), recompute)
    ensures Accounted(Build(shape, recompute).value, Structs(shape, recompute), recompute)
  {
    var o, inner := Build(shape, recompute).value, FieldStructs(shape.fields, shape.packed, recompute);
    var acc := BuildFields(shape.fields, shape.packed, recompute).value;
    FinishedParts(shape, recompute);
    assert o.data[..|acc.out.data|] == acc.out.data;
    AllSitStill(acc.out.data, o.data, inner, OwnBytes(recompute));
    assert o.data[0..0 + |o.data|] == o.data;
    assert Sits(o.data, Located(0, shape), OwnBytes(recompute));
    AllSitConcat(o.data, inner, [Located(0, shape)], OwnBytes(recompute));
    RecordedConcat(inner, [Located(0, shape)], OwnLayouts(recompute));
    RecordedAlone(shape, OwnLayouts(recompute));
  }

  /** The bytes of a field are at its range, moved by `base`. */
  ghost predicate RangeHolds(data: seq<byte>, base: nat, range: Range, field: Option<Object>) {
    && range.start <= range.end && base + range.end <= |data|
    && field.Some? && data[base + range.start..base + range.end] == field.value.data
  }

  /** Field `i` of the struct has its bytes at its range, moved to the place of the struct. */
  ghost predicate FieldSits(data: seq<byte>, l: Located, i: nat, recompute: Recompute)
    requires Buildable(l.struct, recompute) && i < |l.struct.fields|
  {
    BuildableHasFields(l.struct, recompute);
    var ranges := FieldRanges(l.struct, recompute);
    i < |ranges| && RangeHolds(data, l.base, ranges[i], Build(l.struct.fields[i], recompute))
  }

  lemma RangeHoldsFurther(own: seq<byte>, data: seq<byte>, base: nat, range: Range, field: Option<Object>)
    requires RangeHolds(own, 0, range, field) && HoldsAt(data, base, own)
    ensures RangeHolds(data, base, range, field)
  {
    SliceOfSlice(data, own, base, range);
  }

  lemma OwnFieldSits(shape: Shape, i: nat, recompute: Recompute)
    requires Buildable(shape, recompute) && i < |shape.fields|
    ensures FieldSits(Build(shape, recompute).value.data, Located(0, shape), i, recompute)
  {
    StructIsLaidOut(shape, recompute);
    var own, range := Build(shape, recompute).value.data, FieldRanges(shape, recompute)[i];
    assert FieldAt(own, range, shape.fields[i], shape.packed, recompute);
  }

  lemma SittingFieldSits(data: seq<byte>, l: Located, i: nat, recompute: Recompute)
    requires Sits(data, l, OwnBytes(recompute)) && i < |l.struct.fields|
    ensures FieldSits(data, l, i, recompute)
  {
    OwnFieldSits(l.struct, i, recompute);
    var own, range := Build(l.struct, recompute).value.data, FieldRanges(l.struct, recompute)[i];
    RangeHoldsFurther(own, data, l.base, range, Build(l.struct.fields[i], recompute));
  }

  predicate AllBuildable(ls: seq<Located>, recompute: Recompute) {
    forall i :: 0 <= i < |ls| ==> Buildable(ls[i].struct, recompute)
  }

  lemma SittingAreBuildable(data: seq<byte>, ls: seq<Located>, recompute: Recompute)
    requires AllSit(data, ls, OwnBytes(recompute))
    ensures AllBuildable(ls, recompute)
  {
    forall i | 0 <= i < |ls| ensures Buildable(ls[i].struct, recompute) {
      assert Sits(data, ls[i], OwnBytes(recompute));
    }
  }

  /**
   At every depth, each struct has the bytes of its fields at its ranges moved to where the struct is in the whole
   object, and the layouts of the object are these ranges, for the structs for which they cannot be recomputed.
   */
  lemma EveryStructIsLaidOut(shape: Shape, recompute: Recompute)
    requires Build(shape, recompute).Some?
    ensures AllBuildable(Structs(shape, recompute), recompute)
    ensures Build(shape, recompute).value.layouts == Recorded(Structs(shape, recompute), OwnLayouts(recompute))
    ensures forall k, i ::
      0 <= k < |Structs(shape, recompute)| && 0 <= i < |Structs(shape, recompute)[k].struct.fields|
      ==> FieldSits(Build(shape, recompute).value.data, Structs(shape, recompute)[k], i, recompute)
  {
    ObjectIsAccounted(shape, recompute);
    var data, ls := Build(shape, recompute).value.data, Structs(shape, recompute);
    SittingAreBuildable(data, ls, recompute);
    forall k, i | 0 <= k < |ls| && 0 <= i < |ls[k].struct.fields| ensures FieldSits(data, ls[k], i, recompute) {
      assert Sits(data, ls[k], OwnBytes(recompute));
      SittingFieldSits(data, ls[k], i, recompute);
    }
  }

  // ---------------------------------------------------------------- every pointer keeps its slot

  /** The targets of the pointers that are not null, in order. */
  function Targets(shape: Shape): seq<int>
    decreases shape, 1
  {
    match shape
    case Scalar(_, _) => []
    case Pointer(target, isNull) => if isNull then [] else [target]
    case Array(elements, _) => AllTargets(elements)
    case Struct(fields, _, _) => AllTargets(fields)
  }

  function AllTargets(shapes: seq<Shape>): seq<int>
    decreases shapes, 0
  {
    if shapes == [] then [] else AllTargets(shapes[..|shapes| - 1]) + Targets(shapes[|shapes| - 1])
  }

  function SlotTargets(slots: seq<Slot>): (r: seq<int>)
    ensures |r| == |slots|
    ensures forall i :: 0 <= i < |slots| ==> r[i] == slots[i].target
  {
    seq(|slots|, i requires 0 <= i < |slots| => slots[i].target)
  }

  /** No pointer is lost, added or exchanged, however deep it is nested. */
  lemma {:induction false} SlotsHoldTheTargets(shape: Shape, recompute: Recompute)
    requires Build(shape, recompute).Some?
    ensures SlotTargets(Build(shape, recompute).value.pointers) == Targets(shape)
    decreases shape, 1
  {
    match shape
    case Scalar(_, _) =>
    case Pointer(_, _) =>
    case Array(elements, _) => ElementSlotsHoldTheTargets(elements, recompute);
    case Struct(fields, packed, _) => FieldSlotsHoldTheTargets(fields, packed, recompute);
  }

  lemma ShiftedTargets(slots: seq<Slot>, more: seq<Slot>, delta: nat)
    ensures SlotTargets(slots + ShiftSlots(more, delta)) == SlotTargets(slots) + SlotTargets(more)
  {
  }

  lemma {:induction false} ElementSlotsHoldTheTargets(elements: seq<Shape>, recompute: Recompute)
    requires BuildElements(elements, recompute).Some?
    ensures SlotTargets(BuildElements(elements, recompute).value.pointers) == AllTargets(elements)
    decreases elements, 0
  {
    if elements != [] {
      var n := |elements| - 1;
      ElementSlotsHoldTheTargets(elements[..n], recompute);
      SlotsHoldTheTargets(elements[n], recompute);
      var out, child := BuildElements(elements[..n], recompute).value, Build(elements[n], recompute).value;
      ShiftedTargets(out.pointers, child.pointers, |out.data|);
    }
  }

  lemma {:induction false} FieldSlotsHoldTheTargets(fields: seq<Shape>, packed: bool, recompute: Recompute)
    requires BuildFields(fields, packed, recompute).Some?
    ensures SlotTargets(BuildFields(fields, packed, recompute).value.out.pointers) == AllTargets(fields)
    decreases fields, 0
  {
    if fields != [] {
      var n := |fields| - 1;
      FieldSlotsHoldTheTargets(fields[..n], packed, recompute);
      SlotsHoldTheTargets(fields[n], recompute);
      var acc, child := BuildFields(fields[..n], packed, recompute).value, Build(fields[n], recompute).value;
      var base := AlignUp(|acc.out.data|, Placement(fields[n], packed).value).value;
      AddFieldPlaces(acc, child, Placement(fields[n], packed).value);
      ShiftedTargets(acc.out.pointers, child.pointers, base);
    }
  }

  // ---------------------------------------------------------------- alignment in the whole object

  /** Nothing is packed, no alignment is forced, and none is over eight; what is aligned to eight has such a size. */
  predicate Natural(shape: Shape)
    decreases shape, 1
  {
    match shape
    case Scalar(bytes, alignment) => alignment <= 8 && (alignment == 8 ==> |bytes| % 8 == 0)
    case Pointer(_, _) => true
    case Array(elements, elementAlignment) =>
      && elementAlignment.Some? && elementAlignment.value <= 8 && AllNatural(elements)
      && forall i :: 0 <= i < |elements| ==> FieldAlignment(elements[i]) == elementAlignment
    case Struct(fields, packed, explicitAlignment) => !packed && explicitAlignment.None? && AllNatural(fields)
  }

  predicate AllNatural(shapes: seq<Shape>)
    decreases shapes, 0
  {
    forall i :: 0 <= i < |shapes| ==> Natural(shapes[i])
  }

  predicate SlotsAligned(slots: seq<Slot>) {
    forall i :: 0 <= i < |slots| ==> slots[i].offset % 8 == 0
  }

  lemma ShiftKeepsAligned(slots: seq<Slot>, delta: nat)
    requires SlotsAligned(slots) && delta % 8 == 0
    ensures SlotsAligned(ShiftSlots(slots, delta))
  {
  }

  lemma EightIsPowerOfTwo()
    ensures IsPowerOfTwo(8)
  {
    assert IsPowerOfTwo(2) && IsPowerOfTwo(4);
  }

  lemma {:induction false} LargestIsLargest(fields: seq<Shape>)
    requires forall i :: 0 <= i < |fields| ==> FieldAlignment(fields[i]).Some? && FieldAlignment(fields[i]).value <= 8
    ensures LargestAlignment(fields).Some? && LargestAlignment(fields).value <= 8
    ensures forall i :: 0 <= i < |fields| ==> FieldAlignment(fields[i]).value <= LargestAlignment(fields).value
  {
    if fields != [] {
      LargestIsLargest(fields[..|fields| - 1]);
      assert forall i :: 0 <= i < |fields| - 1 ==> fields[..|fields| - 1][i] == fields[i];
    }
  }

  lemma {:induction false} NaturalAlignment(shape: Shape)
    requires Natural(shape)
    ensures FieldAlignment(shape).Some? && FieldAlignment(shape).value <= 8
    decreases shape
  {
    if shape.Struct? {
      forall i | 0 <= i < |shape.fields|
        ensures FieldAlignment(shape.fields[i]).Some? && FieldAlignment(shape.fields[i]).value <= 8
      {
        NaturalAlignment(shape.fields[i]);
      }
      LargestIsLargest(shape.fields);
    }
  }

  /** Slots are aligned to eight; what has slots is aligned to eight, and what is aligned to eight has such a size. */
  predicate Eights(o: Object, alignment: nat) {
    && SlotsAligned(o.pointers)
    && (o.pointers != [] ==> alignment == 8)
    && (alignment == 8 ==> |o.data| % 8 == 0)
  }

  /** In natural shapes every pointer slot is aligned to eight bytes throughout. */
  lemma {:induction false} NaturalIsAligned(shape: Shape, recompute: Recompute)
    requires Natural(shape) && Build(shape, recompute).Some?
    ensures FieldAlignment(shape).Some? && Eights(Build(shape, recompute).value, FieldAlignment(shape).value)
    decreases shape, 1
  {
    NaturalAlignment(shape);
    match shape
    case Scalar(_, _) =>
    case Pointer(_, _) =>
    case Array(elements, elementAlignment) => NaturalElements(elements, elementAlignment.value, recompute);
    case Struct(fields, packed, _) =>
      NaturalFields(fields, recompute);
      FinishedParts(shape, recompute);
      EightIsPowerOfTwo();
  }

  lemma ElementKeepsEights(out: Object, child: Object, alignment: nat)
    requires Eights(out, alignment) && Eights(child, alignment)
    ensures Eights(AddElement(out, child), alignment)
  {
    assert |AddElement(out, child).data| == |out.data| + |child.data|;
    if child.pointers != [] {
      ShiftKeepsAligned(child.pointers, |out.data|);
    }
  }

  lemma {:induction false} NaturalElements(elements: seq<Shape>, alignment: nat, recompute: Recompute)
    requires AllNatural(elements) && BuildElements(elements, recompute).Some?
    requires forall i :: 0 <= i < |elements| ==> FieldAlignment(elements[i]) == Some(alignment)
    ensures Eights(BuildElements(elements, recompute).value, alignment)
    decreases elements, 0
  {
    if elements != [] {
      var n := |elements| - 1;
      NaturalElements(elements[..n], alignment, recompute);
      NaturalIsAligned(elements[n], recompute);
      var out, child := BuildElements(elements[..n], recompute).value, Build(elements[n], recompute).value;
      ElementKeepsEights(out, child, alignment);
    }
  }

  lemma {:induction false} NaturalFields(fields: seq<Shape>, recompute: Recompute)
    requires AllNatural(fields) && BuildFields(fields, false, recompute).Some?
    ensures LargestAlignment(fields).Some? && LargestAlignment(fields).value <= 8
    ensures var o := BuildFields(fields, false, recompute).value.out;
      SlotsAligned(o.pointers) && (o.pointers != [] ==> LargestAlignment(fields).value == 8)
    decreases fields, 0
  {
    if fields != [] {
      var n := |fields| - 1;
      NaturalFields(fields[..n], recompute);
      NaturalIsAligned(fields[n], recompute);
      NaturalAlignment(fields[n]);
      var acc, child := BuildFields(fields[..n], false, recompute).value, Build(fields[n], recompute).value;
      var own := FieldAlignment(fields[n]).value;
      AddFieldPlaces(acc, child, own);
      if child.pointers != [] {
        EightIsPowerOfTwo();
        AlignUpAligns(|acc.out.data|, own);
        ShiftKeepsAligned(child.pointers, AlignUp(|acc.out.data|, own).value);
      }
    }
  }

  // ---------------------------------------------------------------- arrays of built objects

  /** An array value: the elements' bytes one after the other, with the size of each. */
  datatype ArrayValue = ArrayValue(joined: Object, sizes: seq<nat>)

  function Joined(elements: seq<Object>): ArrayValue {
    if elements == [] then ArrayValue(EMPTY, [])
    else
      var n := |elements| - 1;
      var before := Joined(elements[..n]);
      ArrayValue(AddElement(before.joined, elements[n]), before.sizes + [|elements[n].data|])
  }

  method ArrayArgValue(elements: seq<Object>) returns (v: ArrayValue)
    ensures v == Joined(elements)
  {
    v := ArrayValue(EMPTY, []);
    var i := 0;
    while i < |elements|
      invariant i <= |elements| && v == Joined(elements[..i])
    {
      assert elements[..i + 1][..i] == elements[..i];
      var base := |v.joined.data|;
      v := ArrayValue(Object(v.joined.data + elements[i].data,
                             v.joined.pointers + ShiftSlots(elements[i].pointers, base),
                             v.joined.layouts + ShiftLayouts(elements[i].layouts, base)),
                      v.sizes + [|elements[i].data|]);
      i := i + 1;
    }
    assert elements[..i] == elements;
  }

  function Sum(sizes: seq<nat>): nat {
    if sizes == [] then 0 else Sum(sizes[..|sizes| - 1]) + sizes[|sizes| - 1]
  }

  /** The sizes before the `i`th add up to where the piece is found. */
  predicate PieceAt(data: seq<byte>, sizes: seq<nat>, i: nat, piece: seq<byte>) {
    i < |sizes| && Sum(sizes[..i]) + sizes[i] <= |data| && data[Sum(sizes[..i])..Sum(sizes[..i]) + sizes[i]] == piece
  }

  lemma PieceStays(data: seq<byte>, sizes: seq<nat>, i: nat, piece: seq<byte>, more: seq<byte>)
    requires PieceAt(data, sizes, i, piece)
    ensures PieceAt(data + more, sizes + [|more|], i, piece)
  {
    assert (sizes + [|more|])[..i] == sizes[..i];
    var at := Sum(sizes[..i]);
    assert (data + more)[at..at + sizes[i]] == data[at..at + sizes[i]];
  }

  lemma NewPiece(data: seq<byte>, sizes: seq<nat>, more: seq<byte>)
    requires Sum(sizes) == |data|
    ensures PieceAt(data + more, sizes + [|more|], |sizes|, more)
  {
    var longer := sizes + [|more|];
    assert longer[..|sizes|] == sizes && longer[|sizes|] == |more|;
    assert (data + more)[|data|..|data| + |more|] == more;
  }

  /** The sizes cut the bytes of the array back into the bytes of its elements. */
  lemma {:induction false} SizesCutTheArray(elements: seq<Object>, i: nat)
    requires i < |elements|
    ensures PieceAt(Joined(elements).joined.data, Joined(elements).sizes, i, elements[i].data)
  {
    var n := |elements| - 1;
    var before := Joined(elements[..n]);
    JoinedSizes(elements[..n]);
    if i < n {
      SizesCutTheArray(elements[..n], i);
      PieceStays(before.joined.data, before.sizes, i, elements[i].data, elements[n].data);
    } else {
      NewPiece(before.joined.data, before.sizes, elements[n].data);
    }
  }

  lemma {:induction false} JoinedSizes(elements: seq<Object>)
    ensures |Joined(elements).sizes| == |elements| && Sum(Joined(elements).sizes) == |Joined(elements).joined.data|
  {
    if elements != [] {
      var n := |elements| - 1;
      JoinedSizes(elements[..n]);
      assert Joined(elements).sizes[..n] == Joined(elements[..n]).sizes;
    }
  }

  /** Joining objects built one by one gives what building the array in place gives. */
  lemma {:induction false} JoinedIsBuilt(elements: seq<Shape>, objects: seq<Object>, recompute: Recompute)
    requires |objects| == |elements|
    requires forall i :: 0 <= i < |elements| ==> Build(elements[i], recompute) == Some(objects[i])
    ensures BuildElements(elements, recompute) == Some(Joined(objects).joined)
  {
    if elements != [] {
      var n := |elements| - 1;
      JoinedIsBuilt(elements[..n], objects[..n], recompute);
    }
  }
}
