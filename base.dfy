/** `BaseEntity`, the part every entity shares: an id, a name and two
    timestamps, with the validating `name` setter. Authors, books and members
    each own one (Dafny has no class inheritance here, so the entity classes
    hold it as `base`). */
module Base {
  import opened Common
  import Text

  /** What the `name` setter does with `value`: raise on an empty or
      whitespace-only value, otherwise store its stripped form, which is
      itself non-empty. */
  function CheckName(value: string): (r: Result<string>)
    ensures r.Failure? <==> Text.Blank(value)
    ensures r.Failure? ==> r.error == ValueError("Name cannot be empty")
    ensures r.Success? ==> r.value == Text.Strip(value) && r.value != ""
  {
    if value == "" || Text.Strip(value) == "" then Failure(ValueError("Name cannot be empty"))
    else Success(Text.Strip(value))
  }

  /** Setting a name that the setter stored before leaves it unchanged. */
  lemma {:induction false} CheckNameIdempotent(value: string)
    requires CheckName(value).Success?
    ensures CheckName(CheckName(value).value) == CheckName(value)
  {
    Text.StripIdempotent(value);
  }

  class BaseEntity {
    const id: string
    var name: string
    const createdAt: Timestamp
    var updatedAt: Timestamp

    /** `BaseEntity(name)`: takes the fresh id (a uuid4) and the clock reading;
        stores the name as given, without validating it. */
    constructor (id: string, name: string, now: Timestamp)
      ensures this.id == id && this.name == name
      ensures createdAt == now && updatedAt == now
    {
      this.id := id;
      this.name := name;
      createdAt := now;
      updatedAt := now;
    }

    /** The `name` setter. */
    method SetName(value: string, now: Timestamp) returns (r: Outcome)
      modifies this
      ensures r.Fail? <==> CheckName(value).Failure?
      ensures r.Fail? ==> r.error == CheckName(value).error && name == old(name) && updatedAt == old(updatedAt)
      ensures r.Pass? ==> name == CheckName(value).value && updatedAt == now
    {
      var checked := CheckName(value);
      if checked.Failure? {
        return Fail(checked.error);
      }
      name := checked.value;
      updatedAt := now;
      r := Pass;
    }
  }
}
