/** The `PlaceId` value object: a non-blank identifier string, stored and
    returned exactly as given (it is checked with `trim()`, never trimmed). */
module PlaceIds {
  import opened Wrappers
  import opened Errors
  import Strings

  datatype PlaceId = PlaceId(value: string)

  /** The constructor's guard: `!value || value.trim() === ''`. */
  predicate IsBlank(v: string) {
    v == "" || Strings.Trim(v) == ""
  }

  /** `new PlaceId(value)`: fails exactly on the empty string and on strings
      made only of whitespace; otherwise keeps the string unchanged. */
  function New(v: string): (r: Result<PlaceId, ValidationError>)
    ensures r.Failure? <==> forall i :: 0 <= i < |v| ==> Strings.IsWhitespace(v[i])
    ensures r.Failure? ==> r.error == EmptyPlaceId
    ensures r.Success? ==> ToString(r.value) == v
  {
    Strings.TrimEmpty(v);
    if IsBlank(v) then Failure(EmptyPlaceId) else Success(PlaceId(v))
  }

  /** `toString` returns the stored string. */
  function ToString(id: PlaceId): string {
    id.value
  }

  /** `equals`: exact string equality of the stored values. */
  function Equals(a: PlaceId, b: PlaceId): (r: bool)
    ensures r <==> a == b
  {
    a.value == b.value
  }

  lemma EqualsIsEquivalence(a: PlaceId, b: PlaceId, c: PlaceId)
    ensures Equals(a, a)
    ensures Equals(a, b) == Equals(b, a)
    ensures Equals(a, b) && Equals(b, c) ==> Equals(a, c)
  {
  }

  /** `PlaceId.fromString`: the constructor's check, so a blank string is
      refused and any other string is kept as it is and reads back. */
  function FromString(v: string): (r: Result<PlaceId, ValidationError>)
    ensures r.Failure? <==> IsBlank(v)
    ensures r.Failure? ==> r.error == EmptyPlaceId
    ensures r.Success? ==> ToString(r.value) == v && !IsBlank(ToString(r.value))
  {
    New(v)
  }

  /** The cases the source's tests exercise: an ordinary id is kept, the
      empty string and a run of spaces are rejected. */
  lemma Examples()
    ensures New("12345") == Success(PlaceId("12345"))
    ensures New("") == Failure(EmptyPlaceId)
    ensures New("   ") == Failure(EmptyPlaceId)
    ensures Equals(PlaceId("12345"), PlaceId("12345")) && !Equals(PlaceId("12345"), PlaceId("67890"))
  {
    assert !Strings.IsWhitespace("12345"[0]);
  }
}
