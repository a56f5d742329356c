/**
 * Properties of the transform engine that relate several of its operations,
 * and the behaviour its unit tests pin down.
 */
module MarshalProperties {
  import opened Wrappers
  import opened Bson
  import opened ObjectIdHex
  import opened Marshal

  /** Two structs of the same type: same field names, tags and visibility, in the same order. */
  predicate SameShape(a: seq<Field>, b: seq<Field>) {
    |a| == |b| &&
    forall k :: 0 <= k < |a| ==>
      a[k].name == b[k].name && a[k].tag == b[k].tag && a[k].exported == b[k].exported
  }

  /** Which field is the last tagged one depends on the struct's type only. */
  lemma {:induction false} LastTaggedOfSameShape(a: seq<Field>, b: seq<Field>)
    requires SameShape(a, b)
    ensures LastTagged(a) == LastTagged(b)
  {
    if a != [] {
      var n := |a|;
      assert SameShape(a[..n - 1], b[..n - 1]);
      LastTaggedOfSameShape(a[..n - 1], b[..n - 1]);
    }
  }

  /** Which field is the first settable one depends on the struct's type only. */
  lemma {:induction false} FirstSettableOfSameShape(a: seq<Field>, b: seq<Field>)
    requires SameShape(a, b)
    ensures FirstSettable(a) == FirstSettable(b)
  {
    if a != [] {
      assert SameShape(a[1..], b[1..]);
      FirstSettableOfSameShape(a[1..], b[1..]);
    }
  }

  /** The identifier as a string, after `reflectSetId` wrote `id`. */
  function IdText(id: Value): string
    requires id.Str? || id.Oid?
  {
    if id.Oid? then Hex(id.oid) else id.s
  }

  /**
   * After `reflectSetId` through a pointer, `reflectGetId` returns the written
   * id, provided the field `reflectGetId` reads (the last tagged one) is one
   * `reflectSetId` may write (exported).
   */
  lemma GetIdAfterSetId(fs: seq<Field>, id: Value)
    requires id.Str? || id.Oid?
    requires LastTagged(fs).Some? && fs[LastTagged(fs).value].exported
    ensures IdOf(WithId(fs, id)) == IdText(id)
  {
    LastTaggedOfSameShape(WithId(fs, id), fs);
  }

  /** An unexported last tagged field hides the written id from `reflectGetId`. */
  lemma GetIdAfterSetIdUnexported(fs: seq<Field>, id: Value)
    requires LastTagged(fs).Some? && !fs[LastTagged(fs).value].exported
    ensures IdOf(WithId(fs, id)) == IdOf(fs)
  {
    LastTaggedOfSameShape(WithId(fs, id), fs);
  }

  /**
   * The identifier the driver assigned on insert, written back by
   * `reflectSetId`, gives a filter on that very identifier.
   */
  lemma FilterAfterSetObjectId(fs: seq<Field>, o: ObjectId)
    requires LastTagged(fs).Some? && fs[LastTagged(fs).value].exported
    ensures ReflectGetIdFilter(WithId(fs, Oid(o))) == Success([Elem(IdFieldName, Oid(o))])
  {
    GetIdAfterSetId(fs, Oid(o));
    FromHexOfHex(o);
  }

  /** Writing the same identifier twice is writing it once. */
  lemma WithIdIdempotent(fs: seq<Field>, id: Value)
    ensures WithId(WithId(fs, id), id) == WithId(fs, id)
  {
    var once := WithId(fs, id);
    assert forall k :: 0 <= k < |fs| ==> WithId(once, id)[k] == once[k];
  }

  /** Cloning a clone changes nothing more. */
  lemma CloneIdempotent(fs: seq<Field>)
    ensures ClearFirstId(ClearFirstId(fs)) == ClearFirstId(fs)
  {
    var c := ClearFirstId(fs);
    FirstSettableOfSameShape(c, fs);
    match FirstSettable(fs)
    case None =>
    case Some(i) =>
      assert c[i].value == Zero(fs[i].value);
  }

  /**
   * When the record's only identifier field is a string and exported, its
   * clone yields no identifier, so it cannot be used to build a filter.
   */
  lemma CloneHasNoId(fs: seq<Field>)
    requires FirstSettable(fs).Some? && LastTagged(fs) == FirstSettable(fs)
    requires fs[FirstSettable(fs).value].value.Str?
    ensures IdOf(ClearFirstId(fs)) == ""
    ensures ReflectGetIdFilter(ClearFirstId(fs)) == Failure(MustHaveIdField)
  {
    LastTaggedOfSameShape(ClearFirstId(fs), fs);
  }

  /** The content of a content document is itself: `transform` is idempotent on its output. */
  lemma {:induction false} ContentIdempotent(d: seq<Elem>)
    ensures Content(Content(d)) == Content(d)
  {
    if d != [] {
      var init := d[..|d| - 1];
      ContentIdempotent(init);
      ContentOfAllKept(Content(d));
    }
  }

  /** The content of two documents joined is the two contents joined. */
  lemma {:induction false} ContentAppend(a: seq<Elem>, b: seq<Elem>)
    ensures Content(a + b) == Content(a) + Content(b)
  {
    if b == [] {
      assert a + b == a;
    } else {
      var init := b[..|b| - 1];
      ContentAppend(a, init);
      assert (a + b)[..|a + b| - 1] == a + init;
      assert (a + b)[|a + b| - 1] == b[|b| - 1];
    }
  }

  /** Every kept entry is kept as often as it occurs; no other entry is kept at all. */
  lemma {:induction false} ContentCounts(d: seq<Elem>)
    ensures forall e :: multiset(Content(d))[e] == if Keep(e) then multiset(d)[e] else 0
  {
    if d != [] {
      var init, last := d[..|d| - 1], d[|d| - 1];
      ContentCounts(init);
      assert d == init + [last];
      assert multiset(d) == multiset(init) + multiset{last};
      assert Content(d) == Content(init) + (if Keep(last) then [last] else []);
    }
  }

  /** The last tagged field of two field lists joined: the second list's, else the first's. */
  lemma {:induction false} LastTaggedAppend(a: seq<Field>, b: seq<Field>)
    ensures LastTagged(a + b) == match LastTagged(b) case None => LastTagged(a) case Some(i) => Some(|a| + i)
  {
    if b == [] {
      assert a + b == a;
    } else {
      var init := b[..|b| - 1];
      LastTaggedAppend(a, init);
      assert (a + b)[..|a + b| - 1] == a + init;
      assert (a + b)[|a + b| - 1] == b[|b| - 1];
    }
  }

  /** Fields appended after the others decide the identifier as soon as one of them is tagged. */
  lemma IdOfAppend(a: seq<Field>, b: seq<Field>)
    ensures IdOf(a + b) == if LastTagged(b).Some? then IdOf(b) else IdOf(a)
  {
    LastTaggedAppend(a, b);
    if LastTagged(b).Some? {
      assert (a + b)[|a| + LastTagged(b).value] == b[LastTagged(b).value];
    }
  }

  /** A document whose every entry is kept is its own content. */
  lemma {:induction false} ContentOfAllKept(d: seq<Elem>)
    requires forall k :: 0 <= k < |d| ==> Keep(d[k])
    ensures Content(d) == d
  {
    if d != [] {
      var init := d[..|d| - 1];
      ContentOfAllKept(init);
      assert init + [d[|d| - 1]] == d;
    }
  }

  // ---------------------------------------------------------------------------
  // The unit tests' records.

  const SampleHex := "6277cc2316b97479f315e797"

  /** A record shaped like the tests' `Space`: an identifier field and a name. */
  function Space(id: string, name: string): seq<Field> {
    [Field("Id", "_id,omitempty", true, Str(id)), Field("Name", "name", true, Str(name))]
  }

  /** The tests' `NotHaveId`: one untagged field. */
  function NotHaveId(name: string): seq<Field> {
    [Field("Name", "", true, Str(name))]
  }

  lemma IdTagIsDetected()
    ensures IsIdTag("_id,omitempty") && !IsIdTag("name") && !IsIdTag("")
  {
    assert GoText.OccursAt("_id,omitempty", IdFieldName, 0);
    assert forall i :: GoText.OccursAt("name", IdFieldName, i) ==> "name"[i] == '_';
  }

  /** A `Space` has one settable identifier field, its first, which takes a string or an ObjectID. */
  lemma SpaceTakesId(id: string, name: string, v: Value)
    requires v.Str? || v.Oid?
    ensures Settable(Space(id, name)[0]) && !Settable(Space(id, name)[1])
    ensures LastTagged(Space(id, name)) == Some(0)
    ensures IdAssignable(Space(id, name), v)
  {
    IdTagIsDetected();
    assert Space(id, name)[..1] == [Space(id, name)[0]];
  }

  /** Substring matching: any tag containing `_id` marks an identifier field. */
  lemma TagMatchIsSubstring()
    ensures IsIdTag("owner_id")
  {
    assert GoText.OccursAt("owner_id", IdFieldName, 5);
  }

  /**
   * A decoded document whose only non-zero entry is `name` keeps exactly that
   * entry. The entries stand for what the marshaller is assumed to emit for a
   * `Space` with only its name set; its declaration is not part of this model.
   */
  lemma TransformNameOnly(name: string)
    requires name != ""
    ensures Content([Elem("_id", Str("")), Elem("name", Str(name)), Elem("description", Str("")),
                     Elem("size", Int(0)), Elem("archived", Bool(false)), Elem("owner", Null)])
         == [Elem("name", Str(name))]
  {
    var e0, e1, e2 := Elem("_id", Str("")), Elem("name", Str(name)), Elem("description", Str(""));
    var e3, e4, e5 := Elem("size", Int(0)), Elem("archived", Bool(false)), Elem("owner", Null);
    assert !Keep(e0);
    assert Keep(e1);
    assert !Keep(e2) && !Keep(e3);
    assert !Keep(e4) && !Keep(e5);
    assert [] + [e0] == [e0] && [e0] + [e1] == [e0, e1] && [e0, e1] + [e2] == [e0, e1, e2];
    assert [e0, e1, e2] + [e3] == [e0, e1, e2, e3] && [e0, e1, e2, e3] + [e4] == [e0, e1, e2, e3, e4];
    assert [e0, e1, e2, e3, e4] + [e5] == [e0, e1, e2, e3, e4, e5];
    ContentSnoc([], e0);
    ContentSnoc([e0], e1);
    ContentSnoc([e0, e1], e2);
    ContentSnoc([e0, e1, e2], e3);
    ContentSnoc([e0, e1, e2, e3], e4);
    ContentSnoc([e0, e1, e2, e3, e4], e5);
  }

  /** Appending an entry to a decoded document appends it to the content exactly when it is kept. */
  lemma ContentSnoc(d: seq<Elem>, e: Elem)
    ensures Content(d + [e]) == Content(d) + (if Keep(e) then [e] else [])
  {
    assert (d + [e])[..|d|] == d;
  }

  /**
   * The identifier of a `Space`, as `reflectGetId` computes it, is its `Id`
   * field. `MarshalTests.GetIdByValueAndPointer` reads it by value and through a pointer.
   */
  lemma GetIdOfSpace(id: string, name: string)
    ensures IdOf(Space(id, name)) == id
  {
    IdTagIsDetected();
    var fs := Space(id, name);
    assert fs[..1] == [fs[0]];
    assert LastTagged(fs[..1]) == Some(0);
    assert LastTagged(fs) == Some(0);
  }

  /** A hex identifier, like the test's, becomes a filter on the parsed ObjectID. */
  lemma FilterOfHexId(id: string)
    requires IsObjectIdHex(id)
    ensures ReflectGetIdFilter(Space(id, "")) == Success([Elem(IdFieldName, Oid(FromHex(id).value))])
  {
    GetIdOfSpace(id, "");
  }

  lemma SampleHexIsObjectIdHex()
    ensures IsObjectIdHex(SampleHex)
  {
    assert forall i :: 0 <= i < |SampleHex| ==> IsHexDigit(SampleHex[i]);
  }

  /** A non-hex identifier becomes a filter on the string itself. */
  lemma FilterOfPlainId()
    ensures ReflectGetIdFilter(Space("notanobjectid", "")) == Success([Elem(IdFieldName, Str("notanobjectid"))])
  {
    GetIdOfSpace("notanobjectid", "");
    assert !IsObjectIdHex("notanobjectid");
  }

  /** A record with no identifier field gives `MustHaveIdField`. */
  lemma FilterWithoutIdField()
    ensures ReflectGetIdFilter(NotHaveId("test")) == Failure(MustHaveIdField)
  {
    IdTagIsDetected();
  }

  /** The clone of the test's `Space` has an empty identifier and keeps its name. */
  lemma CloneOfSpace()
    ensures ClearFirstId(Space(SampleHex, "test")) == Space("", "test")
  {
    IdTagIsDetected();
  }
}
