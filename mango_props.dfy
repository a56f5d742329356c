/** Properties of the collection facade that relate its operations and pin its pagination. */
module MangoProperties {
  import opened Wrappers
  import opened Bson
  import opened Marshal
  import opened MarshalProperties
  import opened GoText
  import opened Mango
  import Driver

  /**
   * When the product fits in `int64`, the skip is the offset of the page's
   * first document: non-negative, and `page - 1` whole pages.
   */
  lemma PageSkipIsOffset(page: Option<int>, limit: Option<int>)
    requires (PageWindow(page, limit).page - 1) * PageWindow(page, limit).limit <= MaxInt64
    ensures var w := PageWindow(page, limit);
      w.skip == (w.page - 1) * w.limit && w.skip >= 0 && w.skip % w.limit == 0 && w.skip / w.limit == w.page - 1
  {
    var w := PageWindow(page, limit);
    var n := (w.page - 1) * w.limit;
    assert n >= 0 by {
      MulNonNegative(w.page - 1, w.limit);
    }
    assert w.skip == n;
    MulDivMod(w.page - 1, w.limit);
  }

  lemma MulNonNegative(a: int, b: int)
    requires a >= 0 && b >= 0
    ensures a * b >= 0
  {
  }

  lemma MulDivMod(q: int, d: int)
    requires q >= 0 && d >= 1
    ensures (q * d) % d == 0 && (q * d) / d == q
  {
    var x := q * d;
    var k := q - x / d;
    assert x == d * (x / d) + x % d;
    assert d * k == d * q - d * (x / d);
    assert d * k == x % d;
    assert k == 0;
  }

  /** Clamped values are left as they are: clamping twice is clamping once. */
  lemma PageWindowIdempotent(page: Option<int>, limit: Option<int>)
    ensures var w := PageWindow(page, limit);
      PageWindow(Some(w.page), Some(w.limit)) == w
  {
  }

  /** An unparseable page and a negative size give page 1, size 1, skip 0. */
  lemma PageOfInvalidText(filter: Value, sort: Value)
    ensures Page(filter, sort, "a", "-10") == Driver.FindPaged(filter, sort, 0, 1)
  {
    assert ParseInt("a").None?;
    assert ParseInt("-10").Some? && ParseInt("-10").value < 0 by {
      assert "-10"[1..] == "10";
      assert DigitsValue("10") == 10 by {
        assert "10"[..1] == "1";
      }
    }
  }

  /** Valid positive page number and size, written in decimal, pass through unchanged. */
  lemma PageOfDecimalText(filter: Value, sort: Value, page: int, limit: int)
    requires 1 <= page <= MaxInt64 && 1 <= limit <= MaxInt64
    requires (page - 1) * limit <= MaxInt64
    ensures Page(filter, sort, FormatInt(page), FormatInt(limit)) == Driver.FindPaged(filter, sort, (page - 1) * limit, limit)
  {
    ParseFormatInt(page);
    ParseFormatInt(limit);
    PageSkipIsOffset(Some(page), Some(limit));
  }

  /** Past the `int64` range the skip wraps around, as Go's arithmetic does, and comes out negative. */
  lemma PageSkipCanWrap()
    ensures PageWindow(Some(MaxInt64), Some(2)).skip == -4
  {
  }

  /** Every by-identifier operation fails the same way, and before any driver call, when the identifier is missing. */
  lemma MissingIdShortCircuits(fs: seq<Field>, decoded: Result<seq<Elem>, Error>)
    requires IdOf(fs) == ""
    ensures FindById(fs) == Failure(MustHaveIdField)
    ensures UpdateById(fs, decoded) == Failure(MustHaveIdField)
    ensures ReplaceById(fs) == Failure(MustHaveIdField)
    ensures DeleteById(fs) == Failure(MustHaveIdField)
  {
  }

  /**
   * For a record whose one identifier field is an exported string, the
   * replacement carries no identifier while the filter still selects the
   * record by its original one.
   */
  lemma ReplaceSelectsOriginal(fs: seq<Field>)
    requires FirstSettable(fs).Some? && LastTagged(fs) == FirstSettable(fs)
    requires fs[FirstSettable(fs).value].value.Str? && IdOf(fs) != ""
    ensures ReplaceById(fs).Success?
    ensures ReplaceById(fs).value.filter == ReflectGetIdFilter(fs).value
    ensures IdOf(ReplaceById(fs).value.replacement) == ""
  {
    CloneHasNoId(fs);
  }

  /**
   * After an insert through a pointer, the record finds itself: `FindById`
   * filters on exactly the ObjectID the driver assigned.
   */
  lemma FindByIdAfterInsert(fs: seq<Field>, o: ObjectId)
    requires LastTagged(fs).Some? && fs[LastTagged(fs).value].exported
    ensures FindById(WithId(fs, Oid(o))) == Success(Driver.FindOne([Elem(IdFieldName, Oid(o))]))
  {
    FilterAfterSetObjectId(fs, o);
  }

  /**
   * A marshaller failure reaches the caller unchanged: `Find` makes no call,
   * and `UpdateById` reports it once the identifier is known to be present.
   */
  lemma MarshalErrorPassesThrough(fs: seq<Field>, cause: string)
    requires IdOf(fs) != ""
    ensures Find(Failure(TransformError(cause))) == Failure(TransformError(cause))
    ensures UpdateById(fs, Failure(TransformError(cause))) == Failure(TransformError(cause))
  {
  }

  /** A failed insert reports the driver's error and leaves the record as it was. */
  method InsertDriverFailure(fs: seq<Field>, cause: string) returns (r: Result<Value, Error>, after: seq<Field>)
    ensures r == Failure(DriverError(cause))
    ensures after == fs
  {
    var record := new Record(fs);
    var request;
    request, r := InsertOne(ByRef(record), Failure(DriverError(cause)));
    after := record.fields[..];
  }
}
