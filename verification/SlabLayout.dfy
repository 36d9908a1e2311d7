/** Where a slab's header, free-list array, redzones and objects lie. */
module SlabLayout {
  import opened Products
  import opened SlabState

  const HEADER := 48
  const REDZONE := 16
  const MAX_ORDER := 3
  const MAX_SIZE := 8192

  datatype Layout = Layout(order: nat, objsPerSlab: nat, stride: nat, objOffset: nat, rzLeft: nat)

  /** A legal alignment: a power of two between 8 and 4096. */
  predicate IsAlign(a: nat) {
    a in {8, 16, 32, 64, 128, 256, 512, 1024, 2048, 4096}
  }

  function AlignUp(v: nat, a: nat): (r: nat)
    requires a > 0
    ensures v <= r < v + a
  {
    if v % a == 0 then v else v + (a - v % a)
  }

  lemma AlignUpAligned(v: nat, a: nat)
    requires a > 0
    ensures AlignUp(v, a) % a == 0
  {
    var q, r := v / a, v % a;
    assert v == Product(q, a) + r;
    if r != 0 {
      ProductNext(q, a);
      MultipleOf(q + 1, a);
    }
  }

  // ----- the layout -----

  function SlabBytes(order: nat): nat {
    if order == 0 then 4096 else 2 * SlabBytes(order - 1)
  }

  /** The first place for object 0: past the header, the array of `n` links, and its own left redzone. */
  function MinOffset(n: nat, rzLeft: nat, align: nat): nat
    requires align > 0
  {
    AlignUp(HEADER + 2 * n + rzLeft, align)
  }

  /** `n` objects fit a slab of this order. */
  predicate Fits(n: nat, stride: nat, rzLeft: nat, align: nat, order: nat)
    requires align > 0
  {
    MinOffset(n, rzLeft, align) + Product(n, stride) <= SlabBytes(order)
  }

  function LeftZone(align: nat, debug: bool): nat {
    if !debug then 0 else if align > REDZONE then align else REDZONE
  }

  function RightZone(debug: bool): nat {
    if debug then REDZONE else 0
  }

  /** `n` is the most that fit, up to the limit. */
  ghost predicate Most(n: nat, stride: nat, rzLeft: nat, align: nat, order: nat)
    requires align > 0
  {
    && n <= MAX_OBJECTS && (n > 0 ==> Fits(n, stride, rzLeft, align, order))
    && forall m | n < m <= MAX_OBJECTS :: !Fits(m, stride, rzLeft, align, order)
  }

  /** The least order that holds at least four objects, else the greatest, filled as far as it goes. */
  ghost predicate LayoutOk(l: Layout, objSize: nat, align: nat, debug: bool)
    requires align > 0
  {
    && l.rzLeft == LeftZone(align, debug) && l.stride == AlignUp(l.rzLeft + objSize + RightZone(debug), align)
    && l.order <= MAX_ORDER && l.objsPerSlab >= 1 && (l.objsPerSlab >= 4 || l.order == MAX_ORDER)
    && l.objOffset == MinOffset(l.objsPerSlab, l.rzLeft, align)
    && Most(l.objsPerSlab, l.stride, l.rzLeft, align, l.order)
    && forall k | 0 <= k < l.order :: !Fits(4, l.stride, l.rzLeft, align, k)
  }

  /** The most objects that fit: a division gives an upper bound, and a search from there the answer. */
  method MostObjects(stride: nat, rzLeft: nat, align: nat, order: nat) returns (n: nat)
    requires stride > 0 && align > 0
    ensures Most(n, stride, rzLeft, align, order)
  {
    hide Fits, SlabBytes;
    var bytes := SlabBytes(order);
    n := bytes / stride;
    forall m: nat | m > n ensures !Fits(m, stride, rzLeft, align, order) {
      TooMany(m, stride, rzLeft, align, order);
    }
    if n > MAX_OBJECTS {
      n := MAX_OBJECTS;
    }
    while n > 0
      invariant n <= MAX_OBJECTS && forall m | n < m <= MAX_OBJECTS :: !Fits(m, stride, rzLeft, align, order)
    {
      if Fits(n, stride, rzLeft, align, order) {
        break;
      }
      n := n - 1;
    }
  }

  lemma TooMany(m: nat, stride: nat, rzLeft: nat, align: nat, order: nat)
    requires stride > 0 && align > 0 && m > SlabBytes(order) / stride
    ensures !Fits(m, stride, rzLeft, align, order)
  {
    hide SlabBytes;
    var bytes := SlabBytes(order);
    var q, r := bytes / stride, bytes % stride;
    assert bytes == Product(q, stride) + r;
    ProductNext(q, stride);
    ProductMonotone(q + 1, m, stride);
  }

  /** There is a layout for every legal size and alignment. */
  method ComputeLayout(objSize: nat, align: nat, debug: bool) returns (l: Layout)
    requires 1 <= objSize <= MAX_SIZE && IsAlign(align)
    ensures LayoutOk(l, objSize, align, debug)
  {
    hide Fits, AlignUp, Most;
    var rzLeft := LeftZone(align, debug);
    var stride := AlignUp(rzLeft + objSize + RightZone(debug), align);
    var order := 0;
    while order <= MAX_ORDER
      invariant 0 <= order <= MAX_ORDER + 1
      invariant forall k | 0 <= k < order :: !Fits(4, stride, rzLeft, align, k)
      invariant order <= MAX_ORDER
    {
      var n := MostObjects(stride, rzLeft, align, order);
      if n >= 1 && (n >= 4 || order == MAX_ORDER) {
        return Layout(order, n, stride, MinOffset(n, rzLeft, align), rzLeft);
      }
      if order == MAX_ORDER {
        OneFits(objSize, align, debug);
        AtLeastOne(n, stride, rzLeft, align);
      }
      FourDoNot(n, stride, rzLeft, align, order);
      order := order + 1;
    }
    assert false;
  }

  lemma OneFits(objSize: nat, align: nat, debug: bool)
    requires 1 <= objSize <= MAX_SIZE && IsAlign(align)
    ensures var rzLeft := LeftZone(align, debug);
            Fits(1, AlignUp(rzLeft + objSize + RightZone(debug), align), rzLeft, align, MAX_ORDER)
  {
    hide AlignUp;
    assert SlabBytes(3) == 32768;
    var rzLeft := LeftZone(align, debug);
    assert align <= 4096 && rzLeft <= 4096;
    var stride := AlignUp(rzLeft + objSize + RightZone(debug), align);
    assert Product(1, stride) == stride;
  }

  lemma AtLeastOne(n: nat, stride: nat, rzLeft: nat, align: nat)
    requires align > 0 && Most(n, stride, rzLeft, align, MAX_ORDER) && Fits(1, stride, rzLeft, align, MAX_ORDER)
    ensures n >= 1
  {
  }

  lemma FourDoNot(n: nat, stride: nat, rzLeft: nat, align: nat, order: nat)
    requires align > 0 && n < 4 && Most(n, stride, rzLeft, align, order)
    ensures !Fits(4, stride, rzLeft, align, order)
  {
  }

  // ----- what a layout guarantees -----

  /** Slot `i` with its redzones: inside the slab, past the header and links, and apart from every other slot. */
  lemma SlotsApart(l: Layout, objSize: nat, align: nat, debug: bool, i: nat, j: nat)
    requires IsAlign(align) && LayoutOk(l, objSize, align, debug) && i < l.objsPerSlab && j < l.objsPerSlab && i < j
    ensures var a, b := l.objOffset + Product(i, l.stride), l.objOffset + Product(j, l.stride);
            && HEADER + 2 * l.objsPerSlab <= a - l.rzLeft
            && a + objSize + RightZone(debug) <= b - l.rzLeft
            && b + objSize + RightZone(debug) <= SlabBytes(l.order)
            && a % align == 0
  {
    hide Product, SlabBytes;
    SlotEnd(l, objSize, align, debug, j);
    ProductZero(l.stride);
    ProductMonotone(0, i, l.stride);
    ProductMonotone(i + 1, j, l.stride);
    ProductNext(i, l.stride);
    SlotAligned(l, objSize, align, debug, i);
  }

  lemma SlotEnd(l: Layout, objSize: nat, align: nat, debug: bool, j: nat)
    requires IsAlign(align) && LayoutOk(l, objSize, align, debug) && j < l.objsPerSlab
    ensures l.objOffset + Product(j, l.stride) + objSize + RightZone(debug) <= SlabBytes(l.order)
    ensures HEADER + 2 * l.objsPerSlab + l.rzLeft <= l.objOffset
  {
    hide Product, SlabBytes;
    ProductMonotone(j + 1, l.objsPerSlab, l.stride);
    ProductNext(j, l.stride);
  }

  lemma SlotAligned(l: Layout, objSize: nat, align: nat, debug: bool, i: nat)
    requires IsAlign(align) && LayoutOk(l, objSize, align, debug)
    ensures (l.objOffset + Product(i, l.stride)) % align == 0
  {
    hide Product, AlignUp;
    AlignUpAligned(HEADER + 2 * l.objsPerSlab + l.rzLeft, align);
    AlignUpAligned(l.rzLeft + objSize + RightZone(debug), align);
    StepsAligned(l.objOffset, l.stride, align, i);
  }

  lemma {:induction false} StepsAligned(x: nat, step: nat, a: nat, i: nat)
    requires a > 0 && x % a == 0 && step % a == 0
    ensures (x + Product(i, step)) % a == 0
  {
    if i > 0 {
      StepsAligned(x, step, a, i - 1);
      ProductNext(i - 1, step);
      SumAligned(x + Product(i - 1, step), step, a);
    }
  }

  lemma SumAligned(x: nat, y: nat, a: nat)
    requires a > 0 && x % a == 0 && y % a == 0
    ensures (x + y) % a == 0
  {
    var p, q := x / a, y / a;
    assert x == Product(p, a) && y == Product(q, a);
    assert x + y == Product(p + q, a);
    MultipleOf(p + q, a);
  }

  /** An offset is a slot's payload exactly when it is a whole number of strides, and then that is the slot. */
  function IndexForOffset(l: Layout, off: nat): (i: int)
    ensures -1 <= i < l.objsPerSlab
  {
    if l.stride == 0 || off % l.stride != 0 then -1
    else if off / l.stride >= l.objsPerSlab then -1
    else off / l.stride
  }

  lemma IndexExact(l: Layout, off: nat, i: nat)
    requires l.stride > 0
    ensures IndexForOffset(l, off) == i <==> i < l.objsPerSlab && off == Product(i, l.stride)
  {
    MultipleOf(i, l.stride);
    if IndexForOffset(l, off) == i {
      assert off == Product(off / l.stride, l.stride) + off % l.stride;
    }
  }
}
