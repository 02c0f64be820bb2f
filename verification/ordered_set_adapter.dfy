/** The Gson adapter of the ordered set: a set is written as a JSON array of
    its listed elements, oldest first, and read back by adding the array's
    elements in order. Element conversion is the identity here. */
module OrderedSetAdapter {
  import opened Wrappers
  import opened OrderedSeq
  import opened OrderedSet

  /** The shapes of JSON value the deserializer can be handed. */
  datatype Json<E> =
    | JsonArray(items: seq<E>)
    | JsonPrimitive(value: E)
    | JsonObject(members: seq<(string, E)>)
    | JsonNull

  datatype JsonParseError = ExpectedJsonArray

  /** `serialize`: the set's listing as an array. */
  function Serialize<E(!new)>(r: Rep<E>): (j: Json<E>)
    requires Valid(r)
    ensures j.JsonArray?
    ensures j.items == Abs(r)
    ensures NoDups(j.items)
    ensures forall x :: x in j.items <==> Contains(r, x)
  {
    AbsNoDups(r);
    JsonArray(Abs(r))
  }

  /** `deserialize`: anything but an array is rejected; an array's elements
      are added to a new set in array order. */
  function Deserialize<E(!new)>(j: Json<E>): (res: Result<Rep<E>, JsonParseError>)
    ensures res.Success? <==> j.JsonArray?
    ensures res.Success? ==> Valid(res.value)
    ensures res.Success? ==> forall x :: Contains(res.value, x) <==> x in j.items
  {
    if !j.JsonArray? then Failure(ExpectedJsonArray)
    else Success(AddAll(Empty(), j.items))
  }

  /** The set read back from an array lists the array's distinct elements,
      each at its first position. */
  lemma DeserializeListing<E(!new)>(items: seq<E>)
    ensures Deserialize(JsonArray(items)).Success?
    ensures Abs(Deserialize(JsonArray(items)).value) == InsertAll([], items)
  {
  }

  /** A repeated array element is kept once, at its first position. */
  lemma DeserializeRepeat<E(!new)>(a: seq<E>, x: E, b: seq<E>)
    requires x in a
    ensures Abs(Deserialize(JsonArray(a + [x] + b)).value) == Abs(Deserialize(JsonArray(a + b)).value)
  {
    InsertAllRepeat([], a, x, b);
  }

  /** After reading an array, the size is the number of distinct elements. */
  lemma DeserializeSize<E(!new)>(items: seq<E>)
    ensures Size(Deserialize(JsonArray(items)).value) == |Elements(items)|
  {
    var r := Deserialize(JsonArray(items)).value;
    AbsNoDups(r);
    DistinctCount(Abs(r));
    assert Elements(Abs(r)) == Elements(items);
  }

  /** Writing a set and reading it back yields the same listing. */
  lemma RoundTrip<E(!new)>(r: Rep<E>)
    requires Valid(r)
    ensures Deserialize(Serialize(r)).Success?
    ensures Abs(Deserialize(Serialize(r)).value) == Abs(r)
  {
    AbsNoDups(r);
    assert [] + Abs(r) == Abs(r);
    InsertAllFresh([], Abs(r));
  }

  /** The listing from the adapter's own test: adding A, B, C writes ["A","B","C"]. */
  lemma SerializeExample()
    ensures
      var r := AddAll(Empty(), ["A", "B", "C"]);
      Serialize(r) == JsonArray(["A", "B", "C"]) && Size(r) == 3
  {
    var xs: seq<string> := ["A", "B", "C"];
    assert "A" != "B" && "A" != "C" && "B" != "C" by {
      assert "A"[0] != "B"[0] && "A"[0] != "C"[0] && "B"[0] != "C"[0];
    }
    assert NoDups(xs);
    assert [] + xs == xs;
    InsertAllFresh([], xs);
  }
}
