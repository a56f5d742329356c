# mango: object-to-document transform engine, in Dafny

`mango` is a thin mapping layer over a MongoDB driver. Its collection facade
(`mango.go`) exposes find-by-id, find, paginated find, insert, update-by-id,
replace-by-id and delete-by-id. Its transform engine (`marshal.go`) derives
what the facade sends to the driver. It does so by reflecting over a Go
struct's fields and their `bson` tags:

- `transform` builds the content document: every non-zero, non-`_id` entry of the marshalled struct.
- `reflectGetId` reads the identifier field.
- `reflectSetId` writes the identifier field.
- `cloneWithoutId` copies the struct with its identifier reset.
- `reflectGetIdFilter` builds the one-entry `_id` filter, or fails with `ErrMustHaveIdField`.

The model works as follows.

- A struct is a sequence of `Field`s. Each field has a name, its `bson` tag value, an exported flag and a `Value`. The field's Go type is the kind of its value.
- A struct behind a pointer is a `Marshal.Record` object whose field array is written in place.
- A reflective argument is an `Object`: `ByValue(fields)` or `ByRef(record)`.
- `reflectGetId`, `transform` and `cloneWithoutId` are loops in the source. They are methods here, each proved equal to a specification function: `IdOf`, `Content` and `ClearFirstId`.
- `reflectSetId` is `Record.SetId`, a loop that updates the field array. The top-level `ReflectSetId` calls it only for a pointer. For a struct value its frame is empty, so nothing can change.
- `reflectGetIdFilter` is a function.
- The facade's operations are functions that return the driver call they make (a `Driver.Request` carrying its documents). On an error they return the error instead and make no call. `InsertOne` is a method instead, because it writes the assigned identifier back through a pointer; it returns the request alongside the reply.
- Outcomes produced outside the core are parameters: the BSON library's marshal-and-reparse of the object (a decoded document or an error) for `transform`, and the driver's insert reply (the assigned identifier or an error) for `InsertOne`.

Modules:

- `Wrappers`: `Option` and `Result`.
- `Bson`: values, validity and zero values.
- `GoText`: the pieces of Go's standard library the core uses (`strings.Contains`, `strconv.ParseInt`, `int64` wrap-around).
- `ObjectIdHex`: the 24-digit hex form of an ObjectID.
- `Marshal`: the engine.
- `Driver` and `Mango`: the facade.
- `MarshalProperties`, `MarshalTests` and `MangoProperties`: the properties and the unit tests' cases.

Behaviour the model keeps exactly as the code has it, although a tidier contract might be expected:

- The code does not require exactly one identifier field. With several, the last one wins for reading, every settable one is written, and only the first is cleared.
- `reflectGetId` also reads unexported fields. `reflectSetId` and `cloneWithoutId` only touch exported ones.
- An ObjectID is written as a string with `SetString`. This panics on a field that is not a string, so only a string field can take an ObjectID.
- The content document comes in the order the marshaller produced it.

## Model

| member | source | states |
|---|---|---|
| `Bson.IsValid` | marshal.go:33 | `reflect.Value.IsValid`: false exactly for a nil interface value; the model also counts that value as zero, where Go's `IsZero` would panic on it |
| `Bson.IsZero` | marshal.go:33 | `reflect.Value.IsZero` for the valid kinds: the zero values are exactly `""`, `0`, `false` and the nil ObjectID, and a document never is; the model extends it to nil, which Go never reaches because the `IsValid` test comes first |
| `Bson.Zero` | marshal.go:91 | the zero of a field's type is zero, keeps the field's kind (a document field resets to nil), and is the value itself when that is already zero |
| `GoText.Contains` | marshal.go:51 | `strings.Contains`: true exactly when the marker occurs at some position of the tag |
| `GoText.ParseInt` | mango.go:66 | `strconv.ParseInt(s, 10, 64)`: succeeds exactly when the text is an optional sign followed by one or more decimal digits whose signed value lies in the `int64` range, and then yields that value |
| `GoText.ParseIntEdgeCases` | mango.go:66 | a leading `+` and leading zeros are accepted, `-0` is zero, and a lone sign fails |
| `GoText.ParseIntOutOfRange` | mango.go:66 | the decimal text of any number outside `int64` fails to parse |
| `GoText.ParseFormatNat` | mango.go:66 | the decimal text of a natural number, bare or after a minus sign, parses back to it exactly when it fits in `int64` |
| `GoText.ParseFormatInt` | mango.go:66-72 | for every `int64`, parsing its decimal text gives it back |
| `GoText.Wrap64` | mango.go:74 | Go's `int64` product: in range, congruent to the exact value modulo 2^64, and equal to it when no overflow happens |
| `ObjectIdHex.FromHex` | marshal.go:104 | stand-in for `ObjectIDFromHex`: succeeds exactly on 24 hex digits of either case |
| `ObjectIdHex.Hex` | marshal.go:69 | stand-in for `ObjectID.Hex`: 24 lower-case hex digits |
| `ObjectIdHex.FromHexOfHex` | marshal.go:68-69 | parsing the hex form of an ObjectID gives the same ObjectID |
| `ObjectIdHex.HexOfFromHex` | marshal.go:104-107 | a lower-case 24-digit id is exactly the hex form of the ObjectID it parses to |
| `Marshal.Fields` | marshal.go:44-46 | a struct value is its own fields; a pointer argument is dereferenced to the fields it points to, element by element (the same step recurs at lines 61-62 and 80-82) |
| `Marshal.Keep` | marshal.go:33 | an entry is kept exactly when its key is not `_id` and its value is not zero; with the model's `IsZero` (nil counts as zero) the validity test is subsumed, while in Go it is what keeps `IsZero` from panicking on nil |
| `Marshal.Content` | marshal.go:30-36 | every entry kept is valid, non-zero and not keyed `_id`; every such entry of the decoded document is kept; nothing else appears |
| `Marshal.ContentIsSubsequence` | marshal.go:31-35 | the kept entries appear in the decoded document's order |
| `MarshalProperties.ContentCounts` | marshal.go:31-35 | each entry that passes the filter is kept as many times as it occurs in the decoded document, and no other entry is kept at all |
| `MarshalProperties.ContentAppend` | marshal.go:31-35 | the filter works entry by entry: the content of two documents joined is their two contents joined |
| `Marshal.Transform` | marshal.go:20-38 | a marshalling error is returned unchanged with no document; otherwise the loop's result is the content document |
| `Marshal.IsIdTag` | marshal.go:50-51 | a field is an identifier field exactly when `_id` occurs somewhere in its `bson` tag (the same test recurs at lines 66-67 and 89-90) |
| `Marshal.Settable` | marshal.go:67 | a field may be written exactly when it is exported and its tag contains `_id` (the same guard recurs at line 90) |
| `Marshal.LastTagged` | marshal.go:47-54 | finds the last field whose tag contains `_id`: no later field is tagged, and none at all when it finds nothing |
| `MarshalProperties.LastTaggedAppend` | marshal.go:47-54 | for two field lists joined, the last tagged field is the second list's last tagged one, else the first list's |
| `MarshalProperties.IdOfAppend` | marshal.go:47-54 | a later tagged field overrides every earlier one: the fields after the others decide the identifier as soon as one of them is tagged |
| `Marshal.IdOf` | marshal.go:40-56 | the identifier is `""` when no field is tagged, else the string rendering of the last tagged field; it is empty exactly when there is no tagged field or that field holds `""` |
| `Marshal.ReflectString` | marshal.go:52 | `reflect.Value.String`: the string for a string field, a non-empty `<T Value>` text otherwise |
| `Marshal.ReflectGetId` | marshal.go:40-56 | the loop returns the last tagged field's value as a string, `""` if none is tagged; it reads the pointed-to struct and changes nothing |
| `Marshal.Assignable` | marshal.go:68-71 | a field can never take a nil id; an ObjectID goes exactly into a string field |
| `Marshal.WrittenFitsField` | marshal.go:68-71 | a value `reflectSetId` may store into a field has that field's kind |
| `Marshal.IdAssignable` | marshal.go:63-73 | a record with no settable field accepts any id, and a nil id is refused as soon as a settable field exists |
| `Marshal.WithIdKeepsKinds` | marshal.go:63-73 | writing an assignable id changes no field's kind, so the struct keeps its type |
| `Marshal.SetField` | marshal.go:67-72 | one step of the write loop: name, tag and visibility stay; a settable field holds the written id afterwards, and any other field is unchanged |
| `Marshal.Written` | marshal.go:68-72 | an ObjectID is stored as its hex string, which parses back to it; any other id is stored unchanged |
| `Marshal.WithId` | marshal.go:62-74 | after setting the id, every exported tagged field holds the written id; all other fields, and every name and tag, are unchanged |
| `Marshal.Record.SetId` | marshal.go:62-74 | the pointer's field array becomes the struct with the id written into each settable tagged field; a type mismatch that would panic is excluded by its requires |
| `Marshal.ReflectSetId` | marshal.go:58-76 | through a pointer the fields get the id written; a struct value is not modified (empty frame) |
| `Marshal.FirstSettable` | marshal.go:86-94 | finds the first exported field whose tag contains `_id`: none comes before it, and none exists when it finds nothing |
| `Marshal.ClearFirstId` | marshal.go:83-94 | the clone has the same fields, names and tags as the source; it differs from the source only in the first settable tagged field, which holds its type's zero |
| `Marshal.CloneWithoutId` | marshal.go:78-96 | the loop over a fresh copy produces `ClearFirstId` of the pointed-to struct; the source is not modified |
| `Marshal.ReflectGetIdFilter` | marshal.go:98-110 | fails with `MustHaveIdField` exactly when the id is empty; otherwise gives one `_id` entry holding the parsed ObjectID for 24-digit hex and the original string for anything else |
| `MarshalProperties.GetIdAfterSetId` | marshal_test.go:31-33 | after writing a string or ObjectID id through a pointer, reading returns that id (as hex) when the last tagged field is exported |
| `MarshalProperties.GetIdAfterSetIdUnexported` | marshal.go:51-67 | when the last tagged field is unexported, writing an id does not change what reading returns |
| `MarshalProperties.FilterAfterSetObjectId` | marshal.go:66-107 | writing an ObjectID, then building the filter, gives a filter on that exact ObjectID |
| `MarshalProperties.WithIdIdempotent` | marshal.go:62-74 | writing the same id twice is the same as writing it once |
| `MarshalProperties.CloneIdempotent` | marshal.go:83-94 | cloning a clone gives the clone again |
| `MarshalProperties.CloneHasNoId` | marshal.go:86-102 | when the only id field is an exported string, the clone yields `""` and its filter fails with `MustHaveIdField` |
| `MarshalProperties.ContentIdempotent` | marshal.go:30-36 | the content of a content document is that same document |
| `MarshalProperties.ContentOfAllKept` | marshal.go:30-36 | a document whose entries are all valid, non-zero and not keyed `_id` is kept entirely |
| `MarshalProperties.IdTagIsDetected` | marshal.go:50-51 | the tag `_id,omitempty` marks the identifier field; the tags `name` and `""` do not |
| `MarshalProperties.SpaceTakesId` | marshal_test.go:27-34 | a `Space`'s identifier field is its only settable field and the last tagged one, and it takes a string or an ObjectID |
| `MarshalProperties.TagMatchIsSubstring` | marshal.go:51 | any tag containing `_id` as a substring, such as `owner_id`, marks an identifier field |
| `MarshalProperties.TransformNameOnly` | marshal_test.go:11-15 | a decoded document whose only non-zero entry is `name` keeps exactly that entry; the entries the marshaller emits for a `Space` are assumed |
| `MarshalProperties.GetIdOfSpace` | marshal_test.go:17-25 | the identifier `IdOf` computes for a `Space` is its `Id` field |
| `MarshalProperties.SampleHexIsObjectIdHex` | marshal_test.go:47-48 | the tests' identifier text is a valid ObjectID hex string |
| `MarshalProperties.FilterOfHexId` | marshal_test.go:46-55 | a `Space` with a hex id gives a filter on the parsed ObjectID |
| `MarshalProperties.FilterOfPlainId` | marshal_test.go:56-64 | a `Space` with the id `notanobjectid` gives a filter on that string |
| `MarshalProperties.FilterWithoutIdField` | marshal_test.go:65-68 | a struct with no tagged field gives `MustHaveIdField` and no filter |
| `MarshalProperties.CloneOfSpace` | marshal_test.go:36-44 | the clone of a `Space` has an empty id and keeps its name |
| `MarshalTests.GetIdByValueAndPointer` | marshal_test.go:17-25 | reading the id of a struct and of a pointer to it gives the same result |
| `MarshalTests.CloneByValueAndPointer` | marshal_test.go:36-44 | cloning a struct and a pointer to it gives equal clones |
| `MarshalTests.SetIdByValueThenPointer` | marshal_test.go:27-34 | a write through a struct value leaves the id empty; a write through a pointer stores the given id |
| `MarshalTests.SetObjectIdThenGetId` | marshal.go:68-69 | an ObjectID written through a pointer reads back as its hex text, which parses back to it |
| `Mango.FindById` | mango.go:22-27 | a missing id returns `MustHaveIdField` and makes no call; otherwise one `FindOne` call with the id filter |
| `Mango.Find` | mango.go:39-44 | a marshalling error is returned with no call; otherwise one `Find` call filtering on the content document |
| `Mango.PageWindow` | mango.go:66-74 | page and size are at least 1; valid positive values pass through unchanged; unparsed or non-positive ones become 1; skip is (page−1)×size in `int64` arithmetic |
| `Mango.Page` | mango.go:65-77 | one paged `Find` call with the given filter and sort and the clamped skip and limit |
| `Mango.InsertOne` | mango.go:79-86 | the object goes to the driver; the driver's reply is returned unchanged; only on success is the assigned id written back, and only through a pointer |
| `Mango.UpdateById` | mango.go:88-99 | a missing id, then a marshalling error, are returned with no call; otherwise one `UpdateOne` call with the id filter and a single `$set` entry holding the content document, which never carries `_id` or a zero value |
| `Mango.ReplaceById` | mango.go:101-108 | a missing id returns `MustHaveIdField` with no call; otherwise one `ReplaceOne` call with the filter built from the original and the clone as the replacement |
| `Mango.DeleteById` | mango.go:110-116 | a missing id returns `MustHaveIdField` with no call; otherwise one `DeleteOne` call with the id filter |
| `MangoProperties.PageSkipIsOffset` | mango.go:74-75 | when (page−1)×size fits in `int64`, skip equals that product: it is non-negative and exactly page−1 whole pages |
| `MangoProperties.PageWindowIdempotent` | mango.go:66-73 | clamping values that are already clamped changes nothing |
| `MangoProperties.PageOfInvalidText` | mango_test.go:67 | page `"a"` and size `"-10"` give page 1, size 1, skip 0 |
| `MangoProperties.PageOfDecimalText` | mango.go:66-75 | a valid positive page and size written in decimal give skip (page−1)×size and that size |
| `MangoProperties.PageSkipCanWrap` | mango.go:74 | page 2^63−1 with size 2 gives the wrapped skip −4 |
| `MangoProperties.MissingIdShortCircuits` | mango.go:23-114 | with no id, all four by-id operations return `MustHaveIdField` and make no call |
| `MangoProperties.ReplaceSelectsOriginal` | mango.go:102-107 | the replacement carries no id, while the filter still selects the record by its original id |
| `MangoProperties.FindByIdAfterInsert` | mango.go:84 | after the driver-assigned ObjectID is written back, `FindById` filters on exactly that ObjectID |
| `MangoProperties.MarshalErrorPassesThrough` | mango.go:89-97 | a marshaller error is returned unchanged: by `UpdateById` once the identifier is present, and by `Find` with no call (lines 40-43) |
| `MangoProperties.InsertDriverFailure` | mango.go:80-83 | when the driver's insert fails, its error is returned and the record is left as it was |

## Left out

- Driver calls (`FindOne`, `Find`, `InsertOne`, `UpdateOne`, `ReplaceOne`, `DeleteOne`), cursor iteration and close, and `NewCollection` (mango.go:17-20, 27-30, 44-62, 76, 80, 98, 107, 115). These are network I/O through an opaque library. The model states which call is made with which documents. The driver's reply is returned unchanged.
- Decoding results into a fresh instance of the caller's type (mango.go:31-36, 50-54). This is runtime type synthesis inside the driver.
- BSON marshalling and re-parsing (marshal.go:21-29). This is a foreign library. `Transform`, `Find` and `UpdateById` take its outcome as a parameter: a decoded document or an error. How field tags become document keys is therefore not modelled.
- `ObjectIDFromHex` and `ObjectID.Hex` belong to the driver and are not part of this model. `ObjectIdHex.FromHex` and `ObjectIdHex.Hex` are stand-ins. The assumption is that the first accepts exactly 24 hex digits of either case and the second writes 24 lower-case digits.
- Struct tag parsing (`Tag.Get`). A field carries its `bson` tag value directly.
- Float, array, map and nested-struct values have no counterpart in `Value`. `Int` stands for every Go integer type. A marshaller error, for an unsupported type among others, is returned by `transform` rather than raised; the model takes it as the `Failure` case of the decoded-document parameter.
- Sharing between a clone and its source. `dstValue.Set(srcValue)` (marshal.go:85) is a shallow copy, so a slice, map or pointer field of the clone shares storage with the source. Values here are immutable (`Doc` is a value and `CloneWithoutId` returns a sequence), so the model's clone is fully independent, and aliasing through such fields is not captured.
- Contexts, cancellation and driver option objects. They are passed through untouched in the source.
- Panicking arguments are not modelled, because an `Object` is always a struct value or a non-null `Record`. `reflectGetId` and `cloneWithoutId` panic on any non-struct, on a pointer to a non-struct, and on a nil pointer or nil interface. `reflectSetId` panics on a pointer to a non-struct, on a nil pointer and on a nil interface, but any other non-pointer argument returns without effect (marshal.go:61). `Marshal.ReflectSetId` models that no-op only for a struct value.
- `Marshal.ReflectString` renders a non-string id field as `<T Value>` with an assumed Go type name per kind (`int64`, `bool`, `primitive.ObjectID`, `primitive.D`, `interface {}`). Go prints the field's actual declared type.
- `Marshal.Record.SetId` requires that each settable tagged field has the same kind as the id, or is a string when the id is an ObjectID. For the model's kinds this is the condition under which `reflect.Value.Set` / `SetString` does not panic. It is stronger than Go for a field of interface type, which accepts any non-nil value. It is weaker than Go where one model kind covers several Go types: `Set` panics on an `int64` id stored into an `int32` field, and on a `string` id stored into a field of a named string type. `SetString` accepts such a field for an ObjectID.
- `MangoProperties.PageSkipIsOffset` proves skip ≥ 0 and a multiple of the size only when (page−1)×size fits in `int64`. Beyond that, Go's product wraps, and so does the model (`MangoProperties.PageSkipCanWrap`).
- `GoText.Contains` compares characters where Go compares bytes. For the ASCII marker `_id` the two agree on valid UTF-8.
