/**
 * The column-batch family: the base batch (capacity, row count, null
 * indicators), the buffers each concrete kind adds, the guarded in-place
 * growth of all of them, the composite kinds' child batches, and the
 * diagnostic text.
 *
 * One class stands for the whole C++ hierarchy; the kind and the buffers
 * that only that kind owns live in `variant`, so that a struct or union can
 * hold children of any kind.
 */
module Vector {
  import opened Buffers
  import opened Numerals
  import Descriptions

  /** The buffers and child batches a concrete kind adds to the base batch. */
  datatype Variant =
    | LongVector(data: seq<Int64>)
    | DoubleVector(doubleData: seq<DoubleBits>)
    | StringVector(refs: seq<Address>, length: seq<Int64>)
    | StructVector(fields: seq<ColumnVectorBatch>)
    | ListVector(offsets: seq<Int64>, elements: ColumnVectorBatch?)
    | MapVector(offsets: seq<Int64>, keys: ColumnVectorBatch?, elements: ColumnVectorBatch?)
    | UnionVector(tags: seq<Byte>, unionOffsets: seq<UInt64>, children: seq<ColumnVectorBatch>)
    | Decimal64Vector(values: seq<Int64>, readScales: seq<Int64>)
    | Decimal128Vector(wideValues: seq<Int128>, readScales: seq<Int64>)

  /** Each owned buffer has the length the kind ties to `capacity`. */
  predicate Fits(v: Variant, capacity: nat) {
    match v
    case LongVector(d) => |d| == capacity
    case DoubleVector(d) => |d| == capacity
    case StringVector(r, l) => |r| == capacity && |l| == capacity
    case StructVector(_) => true
    case ListVector(o, _) => |o| == capacity + 1
    case MapVector(o, _, _) => |o| == capacity + 1
    case UnionVector(t, o, _) => |t| == capacity && |o| == capacity
    case Decimal64Vector(v, s) => |v| == capacity && |s| == capacity
    case Decimal128Vector(v, s) => |v| == capacity && |s| == capacity
  }

  /** The attached child batches, in order; unset list and map children are absent. */
  function Links(v: Variant): seq<ColumnVectorBatch> {
    match v
    case StructVector(fs) => fs
    case ListVector(_, e) => if e == null then [] else [e]
    case MapVector(_, k, e) => (if k == null then [] else [k]) + (if e == null then [] else [e])
    case UnionVector(_, _, cs) => cs
    case _ => []
  }

  /** Struct and union batches own their children exclusively. */
  predicate Owning(v: Variant) {
    v.StructVector? || v.UnionVector?
  }

  /** `r` is `v` with the same kind and the same child batches. */
  predicate SameLinks(v: Variant, r: Variant) {
    match v
    case LongVector(_) => r.LongVector?
    case DoubleVector(_) => r.DoubleVector?
    case StringVector(_, _) => r.StringVector?
    case StructVector(_) => r == v
    case ListVector(_, e) => r.ListVector? && r.elements == e
    case MapVector(_, k, e) => r.MapVector? && r.keys == k && r.elements == e
    case UnionVector(_, _, cs) => r.UnionVector? && r.children == cs
    case Decimal64Vector(_, _) => r.Decimal64Vector?
    case Decimal128Vector(_, _) => r.Decimal128Vector?
  }

  /** Every buffer of `v` is a prefix of the corresponding buffer of `r`. */
  predicate Extends(v: Variant, r: Variant) {
    SameLinks(v, r) &&
    match v
    case LongVector(d) => IsPrefix(d, r.data)
    case DoubleVector(d) => IsPrefix(d, r.doubleData)
    case StringVector(rs, l) => IsPrefix(rs, r.refs) && IsPrefix(l, r.length)
    case StructVector(_) => true
    case ListVector(o, _) => IsPrefix(o, r.offsets)
    case MapVector(o, _, _) => IsPrefix(o, r.offsets)
    case UnionVector(t, o, _) => IsPrefix(t, r.tags) && IsPrefix(o, r.unionOffsets)
    case Decimal64Vector(vs, s) => IsPrefix(vs, r.values) && IsPrefix(s, r.readScales)
    case Decimal128Vector(vs, s) => IsPrefix(vs, r.wideValues) && IsPrefix(s, r.readScales)
  }

  /** Every buffer of the variant is long enough for `capacity`. */
  predicate FitsAtMost(v: Variant, capacity: nat) {
    match v
    case LongVector(d) => |d| <= capacity
    case DoubleVector(d) => |d| <= capacity
    case StringVector(r, l) => |r| <= capacity && |l| <= capacity
    case StructVector(_) => true
    case ListVector(o, _) => |o| <= capacity + 1
    case MapVector(o, _, _) => |o| <= capacity + 1
    case UnionVector(t, o, _) => |t| <= capacity && |o| <= capacity
    case Decimal64Vector(v, s) => |v| <= capacity && |s| <= capacity
    case Decimal128Vector(v, s) => |v| <= capacity && |s| <= capacity
  }

  /**
   * The kind's own buffers after a resize to `capacity`: list and map
   * offsets grow to `capacity + 1`, every other buffer to `capacity`; a
   * struct has none, and no child batch is touched.
   */
  function GrowVariant(v: Variant, capacity: nat): (r: Variant)
    requires FitsAtMost(v, capacity)
    ensures Fits(r, capacity)
    ensures Extends(v, r)
    ensures Links(r) == Links(v)
  {
    match v
    case LongVector(d) => LongVector(Grown(d, capacity, 0))
    case DoubleVector(d) => DoubleVector(Grown(d, capacity, 0))
    case StringVector(r, l) => StringVector(Grown(r, capacity, 0), Grown(l, capacity, 0))
    case StructVector(_) => v
    case ListVector(o, e) => ListVector(Grown(o, capacity + 1, 0), e)
    case MapVector(o, k, e) => MapVector(Grown(o, capacity + 1, 0), k, e)
    case UnionVector(t, o, cs) => UnionVector(Grown(t, capacity, 0), Grown(o, capacity, 0), cs)
    case Decimal64Vector(vs, s) => Decimal64Vector(Grown(vs, capacity, 0), Grown(s, capacity, 0))
    case Decimal128Vector(vs, s) => Decimal128Vector(Grown(vs, capacity, 0), Grown(s, capacity, 0))
  }

  class ColumnVectorBatch {
    var capacity: nat
    var numElements: nat
    var notNull: seq<Byte>
    var hasNulls: bool
    var variant: Variant
    /** This batch and every batch reachable through its children. */
    ghost var Repr: set<object>

    /**
     * Buffer lengths follow `capacity`, every child is itself valid and lies
     * strictly below this batch, and owned children share nothing.
     */
    ghost predicate Valid()
      reads this, Repr
      ensures Valid() ==> this in Repr
      decreases Repr, 1
    {
      && this in Repr
      && |notNull| == capacity
      && Fits(variant, capacity)
      && (forall c :: c in Links(variant) ==>
            c in Repr && c.Repr <= Repr && this !in c.Repr && c.Valid())
      && (Owning(variant) ==> ExclusiveChildren())
    }

    /** No two owned children reach a common batch. */
    ghost predicate ExclusiveChildren()
      reads this, Repr
      requires this in Repr
      requires forall c :: c in Links(variant) ==> c in Repr
      decreases Repr, 0
    {
      forall i, j :: 0 <= i < j < |Links(variant)| ==> Links(variant)[i].Repr !! Links(variant)[j].Repr
    }

    /** Every list and map in the tree has its children attached. */
    ghost predicate Attached()
      reads this, Repr
      requires Valid()
      decreases Repr
    {
      && (variant.ListVector? ==> variant.elements != null)
      && (variant.MapVector? ==> variant.keys != null && variant.elements != null)
      && (forall c :: c in Links(variant) ==> c.Attached())
    }

    /** The state the base constructor leaves, for `capacity`. */
    ghost predicate IsNew(cap: nat)
      reads this
    {
      capacity == cap && numElements == 0 && !hasNulls && |notNull| == cap && Repr == {this}
    }

    // ----- Construction -----

    constructor Long(cap: nat)
      ensures Valid() && IsNew(cap) && variant.LongVector?
    {
      capacity, numElements, notNull, hasNulls := cap, 0, Allocated(cap, 0), false;
      variant := LongVector(Allocated(cap, 0));
      Repr := {this};
    }

    constructor Double(cap: nat)
      ensures Valid() && IsNew(cap) && variant.DoubleVector?
    {
      capacity, numElements, notNull, hasNulls := cap, 0, Allocated(cap, 0), false;
      variant := DoubleVector(Allocated(cap, 0));
      Repr := {this};
    }

    constructor String(cap: nat)
      ensures Valid() && IsNew(cap) && variant.StringVector?
    {
      capacity, numElements, notNull, hasNulls := cap, 0, Allocated(cap, 0), false;
      variant := StringVector(Allocated(cap, 0), Allocated(cap, 0));
      Repr := {this};
    }

    constructor Struct(cap: nat)
      ensures Valid() && IsNew(cap) && variant == StructVector([])
    {
      capacity, numElements, notNull, hasNulls := cap, 0, Allocated(cap, 0), false;
      variant := StructVector([]);
      Repr := {this};
    }

    constructor List(cap: nat)
      ensures Valid() && IsNew(cap)
      ensures variant.ListVector? && variant.elements == null
    {
      capacity, numElements, notNull, hasNulls := cap, 0, Allocated(cap, 0), false;
      variant := ListVector(Allocated(cap + 1, 0), null);
      Repr := {this};
    }

    constructor Map(cap: nat)
      ensures Valid() && IsNew(cap)
      ensures variant.MapVector? && variant.keys == null && variant.elements == null
    {
      capacity, numElements, notNull, hasNulls := cap, 0, Allocated(cap, 0), false;
      variant := MapVector(Allocated(cap + 1, 0), null, null);
      Repr := {this};
    }

    constructor Union(cap: nat)
      ensures Valid() && IsNew(cap)
      ensures variant.UnionVector? && variant.children == []
    {
      capacity, numElements, notNull, hasNulls := cap, 0, Allocated(cap, 0), false;
      variant := UnionVector(Allocated(cap, 0), Allocated(cap, 0), []);
      Repr := {this};
    }

    constructor Decimal64(cap: nat)
      ensures Valid() && IsNew(cap) && variant.Decimal64Vector?
    {
      capacity, numElements, notNull, hasNulls := cap, 0, Allocated(cap, 0), false;
      variant := Decimal64Vector(Allocated(cap, 0), Allocated(cap, 0));
      Repr := {this};
    }

    constructor Decimal128(cap: nat)
      ensures Valid() && IsNew(cap) && variant.Decimal128Vector?
    {
      capacity, numElements, notNull, hasNulls := cap, 0, Allocated(cap, 0), false;
      variant := Decimal128Vector(Allocated(cap, 0), Allocated(cap, 0));
      Repr := {this};
    }

    // ----- Attaching children (the public members callers fill in) -----

    /** Appends an owned field batch to a struct. */
    method AddField(child: ColumnVectorBatch)
      requires Valid() && variant.StructVector?
      requires child.Valid() && child.Repr !! Repr
      modifies this
      ensures Valid()
      ensures variant == StructVector(old(variant.fields) + [child])
      ensures Repr == old(Repr) + child.Repr
      ensures capacity == old(capacity) && numElements == old(numElements)
      ensures notNull == old(notNull) && hasNulls == old(hasNulls)
    {
      variant := StructVector(variant.fields + [child]);
      Repr := Repr + child.Repr;
      ChildrenStayValid();
    }

    /** Appends an owned child batch to a union. */
    method AddChild(child: ColumnVectorBatch)
      requires Valid() && variant.UnionVector?
      requires child.Valid() && child.Repr !! Repr
      modifies this
      ensures Valid()
      ensures variant == old(variant).(children := old(variant.children) + [child])
      ensures Repr == old(Repr) + child.Repr
      ensures capacity == old(capacity) && numElements == old(numElements)
      ensures notNull == old(notNull) && hasNulls == old(hasNulls)
    {
      variant := variant.(children := variant.children + [child]);
      Repr := Repr + child.Repr;
      ChildrenStayValid();
    }

    /** Points a list's or map's `elements` at a batch the caller manages. */
    method AttachElements(e: ColumnVectorBatch)
      requires Valid() && (variant.ListVector? || variant.MapVector?)
      requires e.Valid() && this !in e.Repr
      modifies this
      ensures Valid()
      ensures variant == old(variant).(elements := e)
      ensures Repr == old(Repr) + e.Repr
      ensures capacity == old(capacity) && numElements == old(numElements)
      ensures notNull == old(notNull) && hasNulls == old(hasNulls)
    {
      variant := variant.(elements := e);
      Repr := Repr + e.Repr;
      ChildrenStayValid();
    }

    /** Points a map's `keys` at a batch the caller manages. */
    method AttachKeys(k: ColumnVectorBatch)
      requires Valid() && variant.MapVector?
      requires k.Valid() && this !in k.Repr
      modifies this
      ensures Valid()
      ensures variant == old(variant).(keys := k)
      ensures Repr == old(Repr) + k.Repr
      ensures capacity == old(capacity) && numElements == old(numElements)
      ensures notNull == old(notNull) && hasNulls == old(hasNulls)
    {
      variant := variant.(keys := k);
      Repr := Repr + k.Repr;
      ChildrenStayValid();
    }

    // ----- Resizing -----

    /**
     * What a resize to `cap` leaves: a larger request sets `capacity` and
     * grows the null indicators and the kind's own buffers; any other
     * request changes nothing. Row count, null flag and children never change.
     */
    twostate predicate ResizedTo(cap: nat)
      reads this
    {
      && numElements == old(numElements) && hasNulls == old(hasNulls) && Repr == old(Repr)
      && Links(variant) == Links(old(variant))
      && if old(capacity) < cap then
           && capacity == cap
           && |old(notNull)| <= cap && notNull == Grown(old(notNull), cap, 0)
           && old(FitsAtMost(variant, cap))
           && variant == GrowVariant(old(variant), cap)
         else
           capacity == old(capacity) && notNull == old(notNull) && variant == old(variant)
    }

    /** The base batch's resize: grows only `capacity` and the null indicators. */
    method ResizeBase(cap: nat)
      requires |notNull| == capacity
      modifies this
      ensures |notNull| == capacity
      ensures capacity == if old(capacity) < cap then cap else old(capacity)
      ensures notNull == if old(capacity) < cap then Grown(old(notNull), cap, 0) else old(notNull)
      ensures numElements == old(numElements) && hasNulls == old(hasNulls)
      ensures variant == old(variant) && Repr == old(Repr)
    {
      if capacity < cap {
        capacity := cap;
        notNull := Grown(notNull, cap, 0);
      }
    }

    /** The shared body of the kinds that own buffers: grow all of them or none. */
    method ResizeOwnBuffers(cap: nat)
      requires Valid() && !variant.StructVector?
      modifies this
      ensures Valid() && ResizedTo(cap)
    {
      if capacity < cap {
        assert FitsAtMost(variant, cap);
        ResizeBase(cap);
        variant := GrowVariant(variant, cap);
        ChildrenKept();
      }
    }

    /**
     * After a change to this batch's own fields alone, every child that was
     * valid and lies strictly below this batch is still valid.
     */
    twostate lemma ChildrenStayValid()
      requires forall c :: c in Links(variant) ==>
                 && old(allocated(c)) && old(c.Valid()) && unchanged(old(c.Repr))
                 && c in Repr && old(c.Repr) <= Repr && this !in old(c.Repr)
      ensures forall c :: c in Links(variant) ==>
                c in Repr && c.Repr <= Repr && this !in c.Repr && c.Valid()
    {
      forall c | c in Links(variant)
        ensures c.Valid()
      {
        assert old(c.Valid());
      }
    }

    /**
     * A change to this batch's own fields that keeps its children and its
     * footprint keeps the children valid and exclusively owned.
     */
    twostate lemma ChildrenKept()
      requires old(Valid())
      requires Links(variant) == Links(old(variant)) && Repr == old(Repr)
      requires Owning(variant) == Owning(old(variant))
      requires unchanged(old(Repr) - {this})
      ensures forall c :: c in Links(variant) ==>
                c in Repr && c.Repr <= Repr && this !in c.Repr && c.Valid()
      ensures Owning(variant) ==> ExclusiveChildren()
    {
      forall c | c in Links(variant)
        ensures c.Valid()
      {
        assert old(c.Valid());
      }
    }

    method ResizeLong(cap: nat)
      requires Valid() && variant.LongVector?
      modifies this
      ensures Valid() && ResizedTo(cap) && variant.LongVector?
    {
      ResizeOwnBuffers(cap);
    }

    method ResizeDouble(cap: nat)
      requires Valid() && variant.DoubleVector?
      modifies this
      ensures Valid() && ResizedTo(cap) && variant.DoubleVector?
    {
      ResizeOwnBuffers(cap);
    }

    method ResizeString(cap: nat)
      requires Valid() && variant.StringVector?
      modifies this
      ensures Valid() && ResizedTo(cap) && variant.StringVector?
      ensures |variant.refs| == |variant.length| == capacity
    {
      ResizeOwnBuffers(cap);
    }

    /** Only the null indicators grow; the field batches are left as they are. */
    method ResizeStruct(cap: nat)
      requires Valid() && variant.StructVector?
      modifies this
      ensures Valid() && ResizedTo(cap)
      ensures variant == old(variant)
    {
      ResizeBase(cap);
    }

    method ResizeList(cap: nat)
      requires Valid() && variant.ListVector?
      modifies this
      ensures Valid() && ResizedTo(cap)
      ensures variant.ListVector? && |variant.offsets| == capacity + 1
      ensures variant.elements == old(variant.elements)
    {
      ResizeOwnBuffers(cap);
    }

    method ResizeMap(cap: nat)
      requires Valid() && variant.MapVector?
      modifies this
      ensures Valid() && ResizedTo(cap)
      ensures variant.MapVector? && |variant.offsets| == capacity + 1
      ensures variant.keys == old(variant.keys) && variant.elements == old(variant.elements)
    {
      ResizeOwnBuffers(cap);
    }

    method ResizeUnion(cap: nat)
      requires Valid() && variant.UnionVector?
      modifies this
      ensures Valid() && ResizedTo(cap)
      ensures variant.UnionVector? && |variant.tags| == |variant.unionOffsets| == capacity
      ensures variant.children == old(variant.children)
    {
      ResizeOwnBuffers(cap);
    }

    method ResizeDecimal64(cap: nat)
      requires Valid() && variant.Decimal64Vector?
      modifies this
      ensures Valid() && ResizedTo(cap) && variant.Decimal64Vector?
      ensures |variant.values| == |variant.readScales| == capacity
    {
      ResizeOwnBuffers(cap);
    }

    method ResizeDecimal128(cap: nat)
      requires Valid() && variant.Decimal128Vector?
      modifies this
      ensures Valid() && ResizedTo(cap) && variant.Decimal128Vector?
      ensures |variant.wideValues| == |variant.readScales| == capacity
    {
      ResizeOwnBuffers(cap);
    }

    /** `resize` as a virtual call: the override of the batch's kind runs. */
    method Resize(cap: nat)
      requires Valid()
      modifies this
      ensures Valid() && ResizedTo(cap)
      ensures capacity >= old(capacity) && capacity >= cap
    {
      match variant
      case LongVector(_) => ResizeLong(cap);
      case DoubleVector(_) => ResizeDouble(cap);
      case StringVector(_, _) => ResizeString(cap);
      case StructVector(_) => ResizeStruct(cap);
      case ListVector(_, _) => ResizeList(cap);
      case MapVector(_, _, _) => ResizeMap(cap);
      case UnionVector(_, _, _) => ResizeUnion(cap);
      case Decimal64Vector(_, _) => ResizeDecimal64(cap);
      case Decimal128Vector(_, _) => ResizeDecimal128(cap);
    }

    /** A second resize to the same capacity changes nothing: resizing is idempotent. */
    method ResizeTwice(cap: nat)
      requires Valid()
      modifies this
      ensures Valid() && ResizedTo(cap)
    {
      Resize(cap);
      ghost var once := (capacity, notNull, variant);
      Resize(cap);
      assert (capacity, notNull, variant) == once;
    }

    // ----- Diagnostic text -----

    /** The text `toString` renders for this batch and, recursively, its children. */
    function Describe(): string
      reads this, Repr
      requires Valid() && Attached()
      decreases Repr, 1, 0
    {
      match variant
      case LongVector(_) => Descriptions.Long(numElements, capacity)
      case DoubleVector(_) => Descriptions.Double(numElements, capacity)
      case StringVector(_, _) => Descriptions.Bytes(numElements, capacity)
      case StructVector(fs) => Descriptions.Struct(numElements, capacity, DescribeAll(fs))
      case ListVector(_, e) => Descriptions.List(e.Describe(), numElements, capacity)
      case MapVector(_, k, e) => Descriptions.Map(k.Describe(), e.Describe(), numElements, capacity)
      case UnionVector(_, _, cs) => Descriptions.Union(DescribeAll(cs), numElements, capacity)
      case Decimal64Vector(_, _) => Descriptions.Decimal64(numElements, capacity)
      case Decimal128Vector(_, _) => Descriptions.Decimal128(numElements, capacity)
    }

    /** The texts of some of this batch's children, in order. */
    function DescribeAll(bs: seq<ColumnVectorBatch>): (ts: seq<string>)
      reads this, Repr
      requires Valid() && Attached()
      requires forall b :: b in bs ==> b in Links(variant)
      ensures |ts| == |bs|
      ensures forall i :: 0 <= i < |bs| ==> ts[i] == bs[i].Describe()
      decreases Repr, 0, |bs|
    {
      if bs == [] then []
      else
        var init, last := bs[..|bs| - 1], bs[|bs| - 1];
        assert last in Links(variant);
        var ts := DescribeAll(init);
        assert forall i :: 0 <= i < |init| ==> init[i] == bs[i];
        ts + [last.Describe()]
    }

    /**
     * `toString`: struct and union batches append their children's texts in
     * a loop, list and map batches embed their children's texts.
     */
    method ToString() returns (s: string)
      requires Valid() && Attached()
      ensures s == Describe()
    {
      match variant
      case LongVector(_) =>
        s := Descriptions.Long(numElements, capacity);
      case DoubleVector(_) =>
        s := Descriptions.Double(numElements, capacity);
      case StringVector(_, _) =>
        s := Descriptions.Bytes(numElements, capacity);
      case StructVector(_) =>
        s := StructToString();
      case ListVector(_, e) =>
        s := Descriptions.List(e.Describe(), numElements, capacity);
      case MapVector(_, k, e) =>
        s := Descriptions.Map(k.Describe(), e.Describe(), numElements, capacity);
      case UnionVector(_, _, _) =>
        s := UnionToString();
      case Decimal64Vector(_, _) =>
        s := Descriptions.Decimal64(numElements, capacity);
      case Decimal128Vector(_, _) =>
        s := Descriptions.Decimal128(numElements, capacity);
    }

    /**
     * The struct's `toString`: each field's text followed by "; ", in field
     * order, between the header and ">".
     */
    method StructToString() returns (s: string)
      requires Valid() && Attached() && variant.StructVector?
      ensures s == Describe()
    {
      var texts := DescribeAll(variant.fields);
      s := Descriptions.StructHead(numElements, capacity);
      s := Descriptions.AppendTerminated(s, texts, "; ");
      s := s + ">";
    }

    /** The union's `toString`: every child's text, in index order, separated by ", ". */
    method UnionToString() returns (s: string)
      requires Valid() && Attached() && variant.UnionVector?
      ensures s == Describe()
    {
      var texts := DescribeAll(variant.children);
      s := Descriptions.AppendJoined("Union vector <", texts, ", ");
      s := s + "; with " + Descriptions.Counts(numElements, capacity);
    }

    // ----- Destruction -----

    /**
     * The struct destructor's loop: every field batch is released once, in
     * field order, and none of them is this batch.
     */
    method ReleaseFields() returns (released: seq<ColumnVectorBatch>)
      requires Valid() && variant.StructVector?
      ensures released == variant.fields
      ensures forall i, j :: 0 <= i < j < |released| ==> released[i] != released[j]
      ensures this !in released
    {
      released := [];
      for i := 0 to |variant.fields|
        invariant released == variant.fields[..i]
      {
        released := released + [variant.fields[i]];
      }
      ChildrenDistinct();
    }

    /**
     * The union destructor's loop: every child batch is released once, in
     * index order, and none of them is this batch.
     */
    method ReleaseChildren() returns (released: seq<ColumnVectorBatch>)
      requires Valid() && variant.UnionVector?
      ensures released == variant.children
      ensures forall i, j :: 0 <= i < j < |released| ==> released[i] != released[j]
      ensures this !in released
    {
      released := [];
      for i := 0 to |variant.children|
        invariant released == variant.children[..i]
      {
        released := released + [variant.children[i]];
      }
      ChildrenDistinct();
    }

    /** Owned children are pairwise different batches, none of them this one. */
    lemma ChildrenDistinct()
      requires Valid() && Owning(variant)
      ensures forall i, j :: 0 <= i < j < |Links(variant)| ==> Links(variant)[i] != Links(variant)[j]
      ensures this !in Links(variant)
    {
      var ls := Links(variant);
      forall i, j | 0 <= i < j < |ls|
        ensures ls[i] != ls[j]
      {
        assert ls[i] in ls && ls[j] in ls;
        assert ls[i] in ls[i].Repr && ls[j] in ls[j].Repr;
      }
    }
  }
}
