/** Tagged values and the growable value array of src/value.c. */
module Values {
  import opened LibC

  /** `long long`, the integer payload. */
  newtype int64 = x: int | -0x8000_0000_0000_0000 <= x < 0x8000_0000_0000_0000

  /** `au3Value`: a type tag and its payload. A number is kept as the 64 bits
      of its IEEE double and never interpreted here. `Unrecognised` stands for
      a tag word that matches none of AU3_TNULL, AU3_TBOOL, AU3_TINTEGER and
      AU3_TNUMBER, which the `default` branches of value.c handle. */
  datatype Value =
    | Null
    | Bool(b: bool)
    | Integer(i: int64)
    | Number(bits: bv64)
    | Unrecognised(tag: int)

  /** The four tags value.c names and treats as ordinary values; numbers,
      whose comparison is the hardware's, are excluded from the lemmas. */
  predicate IsPlain(v: Value)
  {
    v.Null? || v.Bool? || v.Integer?
  }

  /** `a.type == b.type`. */
  predicate SameTag(a: Value, b: Value)
  {
    match a
    case Null => b.Null?
    case Bool(_) => b.Bool?
    case Integer(_) => b.Integer?
    case Number(_) => b.Number?
    case Unrecognised(t) => b.Unrecognised? && b.tag == t
  }

  /** `au3_typeofValue`: the name of a value's type; an unrecognised tag takes
      the `default` branch, which shares the null case. */
  function TypeName(v: Value): (r: string)
    ensures r in {"null", "bool", "integer", "number"}
    ensures r == "null" <==> v.Null? || v.Unrecognised?
  {
    match v
    case Bool(_) => "bool"
    case Integer(_) => "integer"
    case Number(_) => "number"
    case _ => "null"
  }

  /** On the four named tags the type name tells the tags apart exactly. */
  lemma TypeNameSeparatesTags(a: Value, b: Value)
    requires !a.Unrecognised? && !b.Unrecognised?
    ensures TypeName(a) == TypeName(b) <==> SameTag(a, b)
  {
  }

  /** `au3_valuesEqual`. `doubleEq` is C's `==` on two doubles given by their
      bits (IEEE comparison, which this model does not define). */
  function ValuesEqual(a: Value, b: Value, doubleEq: (bv64, bv64) -> bool): (r: bool)
    ensures r ==> SameTag(a, b)
    ensures a.Unrecognised? ==> !r
    ensures a.Number? && b.Number? ==> r == doubleEq(a.bits, b.bits)
  {
    if !SameTag(a, b) then false
    else match a
      case Null => true
      case Bool(x) => x == b.b
      case Integer(x) => x == b.i
      case Number(x) => doubleEq(x, b.bits)
      case Unrecognised(_) => false
  }

  /** Off numbers, value equality is payload identity: a null equals every
      null, and bools and integers are equal exactly when their payloads are. */
  lemma EqualityIsIdentityOnPlain(a: Value, b: Value, doubleEq: (bv64, bv64) -> bool)
    requires IsPlain(a)
    ensures ValuesEqual(a, b, doubleEq) <==> a == b
  {
  }

  /** Equality is reflexive on the plain tags. */
  lemma EqualityReflexiveOnPlain(a: Value, doubleEq: (bv64, bv64) -> bool)
    requires IsPlain(a)
    ensures ValuesEqual(a, a, doubleEq)
  {
  }

  /** Equality is symmetric whenever the double comparison is. */
  lemma EqualitySymmetric(a: Value, b: Value, doubleEq: (bv64, bv64) -> bool)
    requires forall x, y :: doubleEq(x, y) == doubleEq(y, x)
    ensures ValuesEqual(a, b, doubleEq) == ValuesEqual(b, a, doubleEq)
  {
  }

  /** Equal values report the same type name. */
  lemma EqualValuesShareTypeName(a: Value, b: Value, doubleEq: (bv64, bv64) -> bool)
    requires ValuesEqual(a, b, doubleEq)
    ensures TypeName(a) == TypeName(b)
  {
  }

  /** `au3_printValue`: the text printed for a value. `formatNumber` is what
      `printf("%.14g")` prints for a double, not defined here; an unrecognised
      tag matches no case and prints nothing. */
  function PrintValue(v: Value, formatNumber: bv64 -> string): (r: string)
    ensures v.Integer? ==> IsDecimal(r) && DecimalValue(r) == v.i as int
    ensures v.Unrecognised? ==> r == []
  {
    match v
    case Null => "null"
    case Bool(b) => if b then "true" else "false"
    case Integer(i) => DecimalRoundTrip(i as int); DecimalText(i as int)
    case Number(x) => formatNumber(x)
    case Unrecognised(_) => ""
  }

  /** Two plain values print the same text exactly when they are the same value. */
  lemma PrintSeparatesPlain(a: Value, b: Value, formatNumber: bv64 -> string)
    requires IsPlain(a) && IsPlain(b)
    ensures PrintValue(a, formatNumber) == PrintValue(b, formatNumber) <==> a == b
  {
    if PrintValue(a, formatNumber) == PrintValue(b, formatNumber) {
      if a.Integer? && b.Integer? {
        DecimalTextInjective(a.i as int, b.i as int);
      }
    }
  }

  /** The capacity a full array grows to: 8 below 8, double otherwise. */
  function GrowCapacity(capacity: nat): (r: nat)
    ensures r > capacity && r >= 8
    ensures capacity < 8 ==> r == 8
    ensures capacity >= 8 ==> r == 2 * capacity
  {
    if capacity < 8 then 8 else capacity * 2
  }

  /** 8, 16, 32, ...: the capacities growth from an empty array reaches. */
  predicate IsGrownCapacity(c: nat)
  {
    c == 8 || (c > 8 && c % 2 == 0 && IsGrownCapacity(c / 2))
  }

  /** Growth keeps the capacity 0 or a power-of-two multiple of 8. */
  lemma GrowthStaysOnLadder(c: nat)
    requires c == 0 || IsGrownCapacity(c)
    ensures IsGrownCapacity(GrowCapacity(c))
  {
    if c >= 8 {
      assert GrowCapacity(c) / 2 == c;
    }
  }

  /** `realloc` of a block of values to `size` slots: a new block that starts
      with the old block's values (`block == null` is the empty block). */
  method Realloc(block: array?<Value>, size: nat) returns (r: array<Value>)
    requires block != null ==> block.Length <= size
    ensures fresh(r) && r.Length == size
    ensures block != null ==> r[..block.Length] == block[..]
  {
    r := new Value[size];
    if block != null {
      forall i | 0 <= i < block.Length {
        r[i] := block[i];
      }
    }
  }

  /** `au3ValueArray`, the append-only constant pool. */
  class ValueArray {
    var values: array?<Value>
    var capacity: nat
    var count: nat

    /** The buffer has exactly `capacity` slots (none while capacity is 0),
        the used prefix fits, and capacities are those growth produces, with
        more than half of a grown buffer in use. */
    ghost predicate Valid()
      reads this
    {
      && (values == null <==> capacity == 0)
      && (values != null ==> values.Length == capacity)
      && count <= capacity
      && (capacity == 0 || IsGrownCapacity(capacity))
      && (capacity > 8 ==> 2 * count > capacity)
    }

    /** The values written so far, in order. */
    ghost function Contents(): seq<Value>
      reads this, values
      requires Valid()
    {
      if values == null then [] else values[..count]
    }

    /** Declaring an array and calling `au3_initValueArray` on it. */
    constructor ()
      ensures Valid() && values == null && capacity == 0 && count == 0
      ensures Contents() == []
    {
      new;
      Init();
    }

    /** `au3_initValueArray`. */
    method Init()
      modifies this
      ensures Valid() && values == null && capacity == 0 && count == 0
      ensures Contents() == []
    {
      values := null;
      capacity := 0;
      count := 0;
    }

    /** `au3_freeValueArray`: releases the buffer and re-initialises. */
    method Free()
      modifies this
      ensures Valid() && values == null && capacity == 0 && count == 0
      ensures Contents() == []
    {
      Init();
    }

    /** `au3_writeValueArray`: appends `value`, growing the buffer first when
        it is full. */
    method Write(value: Value)
      requires Valid()
      modifies this, values
      ensures Valid()
      ensures count == old(count) + 1
      ensures Contents() == old(Contents()) + [value]
      ensures old(capacity) < old(count) + 1 ==> capacity == GrowCapacity(old(capacity)) && fresh(values)
      ensures old(capacity) >= old(count) + 1 ==> capacity == old(capacity) && values == old(values)
    {
      if capacity < count + 1 {
        GrowthStaysOnLadder(capacity);
        capacity := GrowCapacity(capacity);
        values := Realloc(values, capacity);
      }
      values[count] := value;
      count := count + 1;
    }
  }
}
