/**
 * The transform engine: turning a record into a content document or an
 * identifier filter, reading and writing its identifier field, and cloning it
 * without its identifier.
 *
 * A record is its sequence of fields, in declaration order. A field carries
 * its name, the value of its `bson` tag (what `Tag.Get(TagKey)` returns,
 * `""` when the field has none), whether it is exported, and its value; the
 * field's Go type is the kind of that value. A record reached through a
 * pointer is a `Record` object, whose field array is updated in place.
 */
module Marshal {
  import opened Wrappers
  import opened Bson
  import opened ObjectIdHex
  import GoText

  /** The errors the engine produces. */
  datatype Error =
    | MustHaveIdField           // `ErrMustHaveIdField`
    | TransformError(cause: string)  // a failure of the BSON marshaller, passed through
    | DriverError(cause: string)     // a failure reported by the database driver, passed through

  datatype Field = Field(name: string, tag: string, exported: bool, value: Value)

  /** The tag marks the identifier field: it contains `_id` anywhere. */
  predicate IsIdTag(tag: string)
    ensures IsIdTag(tag) <==> exists i :: GoText.OccursAt(tag, IdFieldName, i)
  {
    GoText.Contains(tag, IdFieldName)
  }

  /** Through an addressable struct, reflection may write the field: `CanSet` and tagged as the identifier. */
  predicate Settable(f: Field)
    ensures Settable(f) <==> f.exported && exists i :: GoText.OccursAt(f.tag, IdFieldName, i)
  {
    f.exported && IsIdTag(f.tag)
  }

  /** A struct behind a pointer: its fields can be written in place. */
  class Record {
    const fields: array<Field>

    constructor (init: seq<Field>)
      ensures fresh(fields) && fields[..] == init
    {
      fields := new Field[|init|](i requires 0 <= i < |init| => init[i]);
    }

    /** The pointer branch of `reflectSetId`: write `id` into every settable identifier field. */
    method SetId(id: Value)
      requires IdAssignable(fields[..], id)
      modifies fields
      ensures fields[..] == WithId(old(fields[..]), id)
    {
      var i := 0;
      while i < fields.Length
        invariant 0 <= i <= fields.Length
        invariant forall k :: 0 <= k < i ==> fields[k] == SetField(old(fields[k]), id)
        invariant forall k :: i <= k < fields.Length ==> fields[k] == old(fields[k])
      {
        if Settable(fields[i]) {
          fields[i] := fields[i].(value := Written(id));
        }
        i := i + 1;
      }
    }
  }

  /** The argument of a reflective call: a struct value, or a pointer to one. */
  datatype Object = ByValue(value: seq<Field>) | ByRef(ptr: Record)

  /** The struct an argument denotes, dereferencing a pointer. */
  function Fields(obj: Object): (fs: seq<Field>)
    reads if obj.ByRef? then {obj.ptr.fields} else {}
    ensures obj.ByValue? ==> fs == obj.value
    ensures obj.ByRef? ==> |fs| == obj.ptr.fields.Length && forall k :: 0 <= k < |fs| ==> fs[k] == obj.ptr.fields[k]
  {
    match obj
    case ByValue(fs) => fs
    case ByRef(r) => r.fields[..]
  }

  // ---------------------------------------------------------------------------
  // transform

  /** An entry `transform` keeps: a valid, non-zero value under a key other than `_id`. */
  predicate Keep(e: Elem)
    ensures Keep(e) <==> e.key != IdFieldName && !IsZero(e.value)
  {
    IsValid(e.value) && !IsZero(e.value) && e.key != IdFieldName
  }

  /** `a` is `b` with some entries removed, the rest in their original order. */
  ghost predicate IsSubsequence(a: seq<Elem>, b: seq<Elem>)
    decreases |b|
  {
    if a == [] then true
    else if b == [] then false
    else (a[|a| - 1] == b[|b| - 1] && IsSubsequence(a[..|a| - 1], b[..|b| - 1]))
         || IsSubsequence(a, b[..|b| - 1])
  }

  /** The content document of a decoded document. */
  function Content(d: seq<Elem>): (r: seq<Elem>)
    ensures forall k :: 0 <= k < |r| ==> Keep(r[k])
    ensures forall k :: 0 <= k < |r| ==> r[k].key != IdFieldName
    ensures forall k :: 0 <= k < |d| && Keep(d[k]) ==> d[k] in r
    ensures forall e :: e in r ==> e in d
  {
    if d == [] then []
    else
      var init, last := d[..|d| - 1], d[|d| - 1];
      var r := Content(init) + (if Keep(last) then [last] else []);
      assert forall k :: 0 <= k < |init| ==> init[k] == d[k];
      assert forall k :: 0 <= k < |d| && Keep(d[k]) ==> d[k] in r by {
        forall k | 0 <= k < |d| && Keep(d[k]) ensures d[k] in r {
          if k < |init| { assert init[k] == d[k]; }
        }
      }
      r
  }

  /** `transform` keeps its entries in the order the decoded document has them. */
  lemma {:induction false} ContentIsSubsequence(d: seq<Elem>)
    ensures IsSubsequence(Content(d), d)
  {
    if d != [] {
      var init, last := d[..|d| - 1], d[|d| - 1];
      ContentIsSubsequence(init);
      var r := Content(d);
      if Keep(last) {
        assert r[..|r| - 1] == Content(init);
      } else {
        assert r == Content(init);
      }
    }
  }

  /**
   * `transform`: the decoded document is the BSON marshaller's output for the
   * object (a parameter here), and the loop keeps the entries `Keep` accepts.
   */
  method Transform(decoded: Result<seq<Elem>, Error>) returns (r: Result<seq<Elem>, Error>)
    ensures decoded.Failure? ==> r == decoded
    ensures decoded.Success? ==> r == Success(Content(decoded.value))
  {
    if decoded.Failure? {
      return Failure(decoded.error);
    }
    var d := decoded.value;
    var filter: seq<Elem> := [];
    for i := 0 to |d|
      invariant filter == Content(d[..i])
    {
      var e := d[i];
      if IsValid(e.value) && !IsZero(e.value) && e.key != IdFieldName {
        filter := filter + [e];
      }
      assert d[..i + 1][..i] == d[..i];
    }
    assert d[..|d|] == d;
    return Success(filter);
  }

  // ---------------------------------------------------------------------------
  // reflectGetId

  /** Index of the last field whose tag marks it as the identifier. */
  function LastTagged(fs: seq<Field>): (r: Option<nat>)
    ensures r.Some? ==> r.value < |fs| && IsIdTag(fs[r.value].tag)
    ensures r.Some? ==> forall k :: r.value < k < |fs| ==> !IsIdTag(fs[k].tag)
    ensures r.None? ==> forall k :: 0 <= k < |fs| ==> !IsIdTag(fs[k].tag)
  {
    if fs == [] then None
    else if IsIdTag(fs[|fs| - 1].tag) then Some(|fs| - 1)
    else
      var r := LastTagged(fs[..|fs| - 1]);
      assert forall k :: 0 <= k < |fs| - 1 ==> fs[..|fs| - 1][k] == fs[k];
      r
  }

  /**
   * Go type names assumed for the non-string kinds when `reflect.Value.String`
   * renders them.
   */
  function GoTypeName(v: Value): string {
    match v
    case Null => "interface {}"
    case Str(_) => "string"
    case Int(_) => "int64"
    case Bool(_) => "bool"
    case Oid(_) => "primitive.ObjectID"
    case Doc(_) => "primitive.D"
  }

  /** `reflect.Value.String`: the string itself, or `<T Value>` for other kinds. */
  function ReflectString(v: Value): (s: string)
    ensures v.Str? ==> s == v.s
    ensures !v.Str? ==> s != ""
  {
    if v.Str? then v.s else "<" + GoTypeName(v) + " Value>"
  }

  /** The identifier a record yields: the last tagged field's value as a string, `""` when none is tagged. */
  function IdOf(fs: seq<Field>): (id: string)
    ensures LastTagged(fs).None? ==> id == ""
    ensures LastTagged(fs).Some? ==> id == ReflectString(fs[LastTagged(fs).value].value)
    ensures id == "" <==> LastTagged(fs).None? || fs[LastTagged(fs).value].value == Str("")
  {
    match LastTagged(fs)
    case None => ""
    case Some(i) => ReflectString(fs[i].value)
  }

  /** One more field: it decides the identifier exactly when it is tagged. */
  lemma IdOfSnoc(fs: seq<Field>, f: Field)
    ensures IdOf(fs + [f]) == if IsIdTag(f.tag) then ReflectString(f.value) else IdOf(fs)
  {
    assert (fs + [f])[..|fs|] == fs;
  }

  /** `reflectGetId`: a loop over the fields in which every tagged field overwrites the result. */
  method ReflectGetId(obj: Object) returns (id: string)
    ensures id == IdOf(Fields(obj))
  {
    var fs := Fields(obj);
    id := "";
    var i := 0;
    while i < |fs|
      invariant 0 <= i <= |fs|
      invariant id == IdOf(fs[..i])
    {
      if IsIdTag(fs[i].tag) {
        id := ReflectString(fs[i].value);
      }
      assert fs[..i + 1] == fs[..i] + [fs[i]];
      IdOfSnoc(fs[..i], fs[i]);
      i := i + 1;
    }
    assert fs[..i] == fs;
  }

  // ---------------------------------------------------------------------------
  // reflectSetId

  /** What `reflectSetId` stores: an ObjectID as its hex string, anything else unchanged. */
  function Written(id: Value): (w: Value)
    ensures id.Oid? ==> w == Str(Hex(id.oid)) && FromHex(w.s) == Some(id.oid)
    ensures !id.Oid? ==> w == id
  {
    if id.Oid? then
      FromHexOfHex(id.oid);
      Str(Hex(id.oid))
    else id
  }

  /**
   * Storing `id` into a field of the kind of `fv` does not panic: `SetString`
   * needs a string field, `Set` a valid value of the field's own type.
   */
  predicate Assignable(fv: Value, id: Value)
    ensures Assignable(fv, id) ==> id != Null
    ensures id.Oid? ==> (Assignable(fv, id) <==> fv.Str?)
  {
    if id.Oid? then fv.Str? else id != Null && SameKind(fv, id)
  }

  /** Every field `reflectSetId` writes can take `id`. */
  predicate IdAssignable(fs: seq<Field>, id: Value)
    ensures (forall k :: 0 <= k < |fs| ==> !Settable(fs[k])) ==> IdAssignable(fs, id)
    ensures id == Null && (exists k :: 0 <= k < |fs| && Settable(fs[k])) ==> !IdAssignable(fs, id)
  {
    forall k :: 0 <= k < |fs| && Settable(fs[k]) ==> Assignable(fs[k].value, id)
  }

  /** One step of `reflectSetId`'s loop: a settable field takes the written id, any other is left alone. */
  function SetField(f: Field, id: Value): (g: Field)
    ensures g.name == f.name && g.tag == f.tag && g.exported == f.exported
    ensures Settable(f) ==> g.value == Written(id)
    ensures !Settable(f) ==> g == f
  {
    if Settable(f) then f.(value := Written(id)) else f
  }

  /** A value `reflectSetId` may store into a field has that field's kind. */
  lemma WrittenFitsField(fv: Value, id: Value)
    requires Assignable(fv, id)
    ensures SameKind(Written(id), fv)
  {
  }

  /** Writing an assignable id changes no field's kind: the struct keeps its type. */
  lemma WithIdKeepsKinds(fs: seq<Field>, id: Value)
    requires IdAssignable(fs, id)
    ensures forall k :: 0 <= k < |fs| ==> SameKind(WithId(fs, id)[k].value, fs[k].value)
  {
    forall k | 0 <= k < |fs| && Settable(fs[k]) {
      WrittenFitsField(fs[k].value, id);
    }
  }

  /** The struct after `reflectSetId`: every settable identifier field holds the written id. */
  function WithId(fs: seq<Field>, id: Value): (r: seq<Field>)
    ensures |r| == |fs|
    ensures forall k :: 0 <= k < |fs| ==>
      r[k].name == fs[k].name && r[k].tag == fs[k].tag && r[k].exported == fs[k].exported
    ensures forall k :: 0 <= k < |fs| && !Settable(fs[k]) ==> r[k] == fs[k]
    ensures forall k :: 0 <= k < |fs| && Settable(fs[k]) ==> r[k].value == Written(id)
  {
    seq(|fs|, k requires 0 <= k < |fs| => SetField(fs[k], id))
  }

  /** `reflectSetId`: only a pointer argument is written; a struct value is left as it was. */
  method ReflectSetId(obj: Object, id: Value)
    requires obj.ByRef? ==> IdAssignable(obj.ptr.fields[..], id)
    modifies if obj.ByRef? then {obj.ptr.fields} else {}
    ensures obj.ByRef? ==> obj.ptr.fields[..] == WithId(old(obj.ptr.fields[..]), id)
  {
    if obj.ByRef? {
      obj.ptr.SetId(id);
    }
  }

  // ---------------------------------------------------------------------------
  // cloneWithoutId

  /** Index of the first field `cloneWithoutId` may reset. */
  function FirstSettable(fs: seq<Field>): (r: Option<nat>)
    ensures r.Some? ==> r.value < |fs| && Settable(fs[r.value])
    ensures r.Some? ==> forall k :: 0 <= k < r.value ==> !Settable(fs[k])
    ensures r.None? ==> forall k :: 0 <= k < |fs| ==> !Settable(fs[k])
  {
    if fs == [] then None
    else if Settable(fs[0]) then Some(0)
    else
      match FirstSettable(fs[1..])
      case None => None
      case Some(i) => Some(i + 1)
  }

  /** The clone: the record with its first settable identifier field reset to its type's zero. */
  function ClearFirstId(fs: seq<Field>): (r: seq<Field>)
    ensures |r| == |fs|
    ensures forall k :: 0 <= k < |fs| ==>
      r[k].name == fs[k].name && r[k].tag == fs[k].tag && r[k].exported == fs[k].exported
    ensures forall k :: 0 <= k < |fs| && r[k] != fs[k] ==>
      Settable(fs[k]) && (forall j :: 0 <= j < k ==> !Settable(fs[j]))
    ensures forall k :: 0 <= k < |fs| && Settable(fs[k]) && (forall j :: 0 <= j < k ==> !Settable(fs[j])) ==>
      r[k].value == Zero(fs[k].value)
  {
    match FirstSettable(fs)
    case None => fs
    case Some(i) => fs[i := fs[i].(value := Zero(fs[i].value))]
  }

  /**
   * `cloneWithoutId`: copy the struct into a fresh one, then reset the first
   * settable identifier field and stop.
   */
  method CloneWithoutId(obj: Object) returns (clone: seq<Field>)
    ensures clone == ClearFirstId(Fields(obj))
  {
    var src := Fields(obj);
    var dst := new Field[|src|](k requires 0 <= k < |src| => src[k]);
    var i := 0;
    while i < dst.Length
      invariant 0 <= i <= dst.Length
      invariant dst[..] == src
      invariant forall k :: 0 <= k < i ==> !Settable(src[k])
    {
      if Settable(dst[i]) {
        dst[i] := dst[i].(value := Zero(dst[i].value));
        clone := dst[..];
        return;
      }
      i := i + 1;
    }
    clone := dst[..];
  }

  // ---------------------------------------------------------------------------
  // reflectGetIdFilter

  /** `reflectGetIdFilter`: a one-entry `_id` filter, or `MustHaveIdField` when the record yields no identifier. */
  function ReflectGetIdFilter(fs: seq<Field>): (r: Result<seq<Elem>, Error>)
    ensures r.Failure? <==> IdOf(fs) == ""
    ensures r.Failure? ==> r.error == MustHaveIdField
    ensures r.Success? ==> |r.value| == 1 && r.value[0].key == IdFieldName
    ensures r.Success? && IsObjectIdHex(IdOf(fs)) ==>
      r.value[0].value.Oid? && FromHex(IdOf(fs)) == Some(r.value[0].value.oid)
    ensures r.Success? && !IsObjectIdHex(IdOf(fs)) ==> r.value[0].value == Str(IdOf(fs))
  {
    var id := IdOf(fs);
    if |id| == 0 then Failure(MustHaveIdField)
    else
      match FromHex(id)
      case None => Success([Elem(IdFieldName, Str(id))])
      case Some(oid) => Success([Elem(IdFieldName, Oid(oid))])
  }
}
