/**
 * The engine's unit tests as verified methods: the same calls on a struct
 * value and on a pointer to it.
 */
module MarshalTests {
  import opened Wrappers
  import opened Bson
  import opened Marshal
  import opened MarshalProperties

  /** `reflectGetId` gives the same identifier for a struct and for a pointer to it. */
  method GetIdByValueAndPointer(r: Record) returns (byValue: string, byPointer: string)
    ensures byValue == byPointer
    ensures byValue == IdOf(r.fields[..])
  {
    byValue := ReflectGetId(ByValue(r.fields[..]));
    byPointer := ReflectGetId(ByRef(r));
  }

  /** `cloneWithoutId` gives equal clones for a struct and a pointer to it, and leaves the source as it was. */
  method CloneByValueAndPointer(r: Record) returns (byValue: seq<Field>, byPointer: seq<Field>)
    ensures byValue == byPointer
    ensures byValue == ClearFirstId(r.fields[..])
  {
    byValue := CloneWithoutId(ByValue(r.fields[..]));
    byPointer := CloneWithoutId(ByRef(r));
  }

  /**
   * The set-identifier test: written through a struct value the identifier
   * stays empty; written through a pointer it is the one given.
   */
  method SetIdByValueThenPointer(id: string) returns (afterValue: string, afterPointer: string)
    ensures afterValue == ""
    ensures afterPointer == id
  {
    var space := new Record(Space("", ""));
    ReflectSetId(ByValue(space.fields[..]), Str(id));
    afterValue := space.fields[0].value.s;
    SpaceTakesId("", "", Str(id));
    ReflectSetId(ByRef(space), Str(id));
    assert space.fields[0].value == Written(Str(id));
    afterPointer := space.fields[0].value.s;
  }

  /** An ObjectID written through a pointer is stored as its hex text and read back as such. */
  method SetObjectIdThenGetId(o: ObjectId) returns (id: string)
    ensures id == ObjectIdHex.Hex(o)
    ensures ObjectIdHex.FromHex(id) == Some(o)
  {
    var space := new Record(Space("", "test"));
    SpaceTakesId("", "test", Oid(o));
    ReflectSetId(ByRef(space), Oid(o));
    id := ReflectGetId(ByRef(space));
    GetIdAfterSetId(Space("", "test"), Oid(o));
    ObjectIdHex.FromHexOfHex(o);
  }
}
