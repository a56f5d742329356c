/**
 * The database driver's side of the boundary: the calls the collection facade
 * makes, each with the documents it passes. What the driver does with a call
 * is not part of this model.
 */
module Driver {
  import opened Bson
  import opened Marshal

  datatype Request =
    | FindOne(filter: seq<Elem>)
    | Find(filter: seq<Elem>)
    | FindPaged(query: Value, sort: Value, skip: int, limit: int)
    | InsertOne(document: seq<Field>)
    | UpdateOne(filter: seq<Elem>, update: seq<Elem>)
    | ReplaceOne(filter: seq<Elem>, replacement: seq<Field>)
    | DeleteOne(filter: seq<Elem>)
}

/**
 * The collection facade: each operation derives its documents with the
 * transform engine and then makes one driver call. An operation returns the
 * call it makes, or the error it returns before making any call; the driver's
 * own reply is returned to the caller unchanged.
 */
module Mango {
  import opened Wrappers
  import opened Bson
  import opened Marshal
  import opened GoText
  import Driver

  /** The update operator `UpdateById` wraps the content document in. */
  const SetOperator := "$set"

  /** `FindById`: look the record up by its identifier filter. */
  function FindById(fs: seq<Field>): (r: Result<Driver.Request, Error>)
    ensures IdOf(fs) == "" ==> r == Failure(MustHaveIdField)
    ensures IdOf(fs) != "" ==> r == Success(Driver.FindOne(ReflectGetIdFilter(fs).value))
  {
    match ReflectGetIdFilter(fs)
    case Failure(e) => Failure(e)
    case Success(filter) => Success(Driver.FindOne(filter))
  }

  /** `Find`: query by example, the example's content document being the filter. */
  function Find(decoded: Result<seq<Elem>, Error>): (r: Result<Driver.Request, Error>)
    ensures decoded.Failure? ==> r == Failure(decoded.error)
    ensures decoded.Success? ==> r.Success? && r.value.Find?
    ensures decoded.Success? ==> r.value.filter == Content(decoded.value)
  {
    match decoded
    case Failure(e) => Failure(e)
    case Success(d) => Success(Driver.Find(Content(d)))
  }

  /** Page number, page size and number of documents skipped. */
  datatype Window = Window(page: int, limit: int, skip: int)

  /**
   * The clamping in `Page`, over the results of parsing its two strings. The
   * product is computed in Go's `int64`, so it wraps when it does not fit.
   */
  function PageWindow(page: Option<int>, limit: Option<int>): (w: Window)
    ensures w.page >= 1 && w.limit >= 1
    ensures page.Some? && page.value >= 1 ==> w.page == page.value
    ensures page.None? || page.value < 1 ==> w.page == 1
    ensures limit.Some? && limit.value > 0 ==> w.limit == limit.value
    ensures limit.None? || limit.value <= 0 ==> w.limit == 1
    ensures InInt64(w.skip)
    ensures (w.skip - (w.page - 1) * w.limit) % TwoTo64 == 0
  {
    var p := if page.None? || page.value < 1 then 1 else page.value;
    var l := if limit.None? || limit.value <= 0 then 1 else limit.value;
    Window(p, l, Wrap64((p - 1) * l))
  }

  /** `Page`: find with skip and limit computed from the page number and size given as text. */
  function Page(filter: Value, sort: Value, page: string, limit: string): (r: Driver.Request)
    ensures r.FindPaged? && r.query == filter && r.sort == sort
    ensures r.limit >= 1
    ensures r.skip == PageWindow(ParseInt(page), ParseInt(limit)).skip
    ensures r.limit == PageWindow(ParseInt(page), ParseInt(limit)).limit
  {
    var w := PageWindow(ParseInt(page), ParseInt(limit));
    Driver.FindPaged(filter, sort, w.skip, w.limit)
  }

  /**
   * `InsertOne`: the object goes to the driver as it is; when the driver
   * reports the identifier it assigned, that identifier is written back into
   * the object, which only a pointer argument makes visible.
   */
  method InsertOne(obj: Object, inserted: Result<Value, Error>) returns (request: Driver.Request, r: Result<Value, Error>)
    requires inserted.Success? && obj.ByRef? ==> IdAssignable(obj.ptr.fields[..], inserted.value)
    modifies if obj.ByRef? then {obj.ptr.fields} else {}
    ensures request == Driver.InsertOne(old(Fields(obj)))
    ensures r == inserted
    ensures obj.ByRef? && inserted.Success? ==> obj.ptr.fields[..] == WithId(old(obj.ptr.fields[..]), inserted.value)
    ensures obj.ByRef? && inserted.Failure? ==> obj.ptr.fields[..] == old(obj.ptr.fields[..])
  {
    request := Driver.InsertOne(Fields(obj));
    if inserted.Failure? {
      return request, Failure(inserted.error);
    }
    ReflectSetId(obj, inserted.value);
    r := inserted;
  }

  /** `UpdateById`: `$set` the record's content document on the record selected by its identifier. */
  function UpdateById(fs: seq<Field>, decoded: Result<seq<Elem>, Error>): (r: Result<Driver.Request, Error>)
    ensures IdOf(fs) == "" ==> r == Failure(MustHaveIdField)
    ensures IdOf(fs) != "" && decoded.Failure? ==> r == Failure(decoded.error)
    ensures IdOf(fs) != "" && decoded.Success? ==>
      r.Success? && r.value.UpdateOne? && r.value.filter == ReflectGetIdFilter(fs).value
    ensures IdOf(fs) != "" && decoded.Success? ==>
      r.value.update == [Elem(SetOperator, Doc(Content(decoded.value)))]
    ensures r.Success? ==> forall e :: e in r.value.update[0].value.elems ==> e.key != IdFieldName && !IsZero(e.value)
  {
    match ReflectGetIdFilter(fs)
    case Failure(e) => Failure(e)
    case Success(filter) =>
      match decoded
      case Failure(e) => Failure(e)
      case Success(d) => Success(Driver.UpdateOne(filter, [Elem(SetOperator, Doc(Content(d)))]))
  }

  /** `ReplaceById`: replace the record selected by its identifier with the record's clone. */
  function ReplaceById(fs: seq<Field>): (r: Result<Driver.Request, Error>)
    ensures IdOf(fs) == "" ==> r == Failure(MustHaveIdField)
    ensures IdOf(fs) != "" ==> r.Success? && r.value.ReplaceOne?
    ensures IdOf(fs) != "" ==> r.value.filter == ReflectGetIdFilter(fs).value
    ensures IdOf(fs) != "" ==> r.value.replacement == ClearFirstId(fs)
  {
    match ReflectGetIdFilter(fs)
    case Failure(e) => Failure(e)
    case Success(filter) => Success(Driver.ReplaceOne(filter, ClearFirstId(fs)))
  }

  /** `DeleteById`: delete the record selected by its identifier. */
  function DeleteById(fs: seq<Field>): (r: Result<Driver.Request, Error>)
    ensures IdOf(fs) == "" ==> r == Failure(MustHaveIdField)
    ensures IdOf(fs) != "" ==> r == Success(Driver.DeleteOne(ReflectGetIdFilter(fs).value))
  {
    match ReflectGetIdFilter(fs)
    case Failure(e) => Failure(e)
    case Success(filter) => Success(Driver.DeleteOne(filter))
  }
}
