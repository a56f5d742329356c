/**
 * The document values the mapping layer handles: decoded BSON values and the
 * values held by a record's fields, with Go's validity and zero-value tests.
 */
module Bson {

  /** An octet. */
  type byte = x: int | 0 <= x < 256

  /** Length in bytes of a canonical object identifier. */
  const ObjectIdLength := 12

  /** A canonical object identifier: exactly twelve bytes. */
  type ObjectId = s: seq<byte> | |s| == ObjectIdLength witness [0, 0, 0, 0, 0, 0, 0, 0, 0, 0, 0, 0]

  /** The all-zero identifier, the zero value of the identifier type. */
  const NilObjectId: ObjectId := [0, 0, 0, 0, 0, 0, 0, 0, 0, 0, 0, 0]

  /** Name of the struct tag that maps fields to document keys. */
  const TagKey := "bson"

  /** Document key of the identifier, and the marker searched for in tags. */
  const IdFieldName := "_id"

  /**
   * A value. `Null` is Go's nil: an invalid `reflect.Value` when it comes out
   * of a decoded document, a nil reference when it sits in a record field.
   * `Int` stands for every Go integer type, `Doc` for a non-nil ordered document.
   */
  datatype Value =
    | Null
    | Str(s: string)
    | Int(i: int)
    | Bool(b: bool)
    | Oid(oid: ObjectId)
    | Doc(elems: seq<Elem>)

  /** A key/value pair of an ordered document (`bson.E`). */
  datatype Elem = Elem(key: string, value: Value)

  /** `reflect.ValueOf(v).IsValid()`: false exactly for nil. */
  predicate IsValid(v: Value)
    ensures IsValid(v) <==> v != Null
    ensures !IsValid(v) ==> IsZero(v)
  {
    !v.Null?
  }

  /**
   * `reflect.Value.IsZero`: the zero value of the value's own type. A document
   * is a slice, and only a nil slice is zero, so a `Doc` never is.
   */
  predicate IsZero(v: Value)
    ensures IsZero(v) <==> v == Null || v == Str("") || v == Int(0) || v == Bool(false) || v == Oid(NilObjectId)
  {
    match v
    case Null => true
    case Str(s) => s == ""
    case Int(i) => i == 0
    case Bool(b) => !b
    case Oid(o) => o == NilObjectId
    case Doc(_) => false
  }

  /** Both values have the same Go type in this model. */
  predicate SameKind(a: Value, b: Value) {
    match a
    case Null => b.Null?
    case Str(_) => b.Str?
    case Int(_) => b.Int?
    case Bool(_) => b.Bool?
    case Oid(_) => b.Oid?
    case Doc(_) => b.Doc?
  }

  /**
   * `reflect.New(t).Elem()`: the zero value of the type of `v`; the zero of a
   * document type is a nil slice.
   */
  function Zero(v: Value): (z: Value)
    ensures IsZero(z)
    ensures IsZero(v) ==> z == v
    ensures !v.Doc? ==> SameKind(z, v)
    ensures v.Doc? ==> z.Null?
  {
    match v
    case Null => Null
    case Str(_) => Str("")
    case Int(_) => Int(0)
    case Bool(_) => Bool(false)
    case Oid(_) => Oid(NilObjectId)
    case Doc(_) => Null
  }
}
