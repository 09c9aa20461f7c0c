/** A configuration property: the cell an object declares as a field and
    a source fills in. It holds a required flag fixed at construction, the
    key it is looked up by, set at most once, and its current value. */
module ConfEagerProperty {
  import opened Wrappers
  import opened Errors
  import opened Mappers

  class Property {
    /** True exactly when no default value was given. */
    const required: bool
    /** The property's type, which decides its `map`. */
    const mapper: Mapper
    /** The property's `map`, which its type supplies: how a raw string
        becomes the property's value. */
    const parse: string -> Result<Value, ConfError>
    /** The key looked up in a source: an explicit name, else the first
        field name reported. */
    var key: Option<string>
    /** The value in memory; `None` stands for JavaScript `null`. */
    var value: Option<Value>

    /** With a default value the property is optional and starts with that
        value; without one it is required and starts empty. */
    constructor(mapper: Mapper, defaultValue: Option<Value>, propertyName: Option<string>)
      ensures this.mapper == mapper
      ensures Valid()
      ensures required <==> defaultValue.None?
      ensures value == defaultValue
      ensures key == propertyName
    {
      this.mapper := mapper;
      parse := raw => Map(mapper, raw);
      if defaultValue.Some? {
        required := false;
        value := defaultValue;
      } else {
        required := true;
        value := None;
      }
      key := propertyName;
    }

    /** `parse` is the `map` of the property's type. */
    ghost predicate Valid() {
      forall raw {:trigger Map(mapper, raw)} :: parse(raw) == Map(mapper, raw)
    }

    /** Whatever the property's type, a raw value it rejects is reported as
        an illegal value. */
    lemma ParseFailureIsIllegal(raw: string)
      requires Valid()
      ensures parse(raw).Failure? ==> parse(raw).error.IllegalPropertyValue?
    {
      MapFailsWithIllegalValue(mapper, raw);
    }

    /** `_getPropertyName`: the key; with no key at all JavaScript turns the
        missing name into the text "undefined". */
    function Name(): (r: string)
      reads this`key
      ensures key.Some? ==> r == key.value
      ensures key.None? ==> r == "undefined"
    {
      if key.Some? then key.value else "undefined"
    }

    /** `get`: the value once there is one; before that, a read-before-write
        failure naming the property. */
    function Get(): (r: Result<Value, ConfError>)
      reads this`value, this`key
      ensures r.Success? <==> value.Some?
      ensures r.Success? ==> r.value == value.value
      ensures r.Failure? ==> r.error == ReadBeforeWrite(Name())
    {
      match value
      case Some(v) => Success(v)
      case None => Failure(ReadBeforeWrite(Name()))
    }

    /** `_update`: store the parsed raw value. A value that does not parse
        is an illegal-value failure and leaves the stored value as it was. */
    method Update(raw: string) returns (o: Outcome<ConfError>)
      modifies this`value
      ensures o.Pass? <==> parse(raw).Success?
      ensures o.Pass? ==> value == Some(parse(raw).value) && Get() == Success(parse(raw).value)
      ensures o.Fail? ==> o.error == parse(raw).error && value == old(value)
    {
      match parse(raw)
      case Success(v) =>
        value := Some(v);
        o := Pass;
      case Failure(e) =>
        o := Fail(e);
    }

    /** `_setFieldName`: the first name wins; an explicit key or a name
        reported earlier is never overwritten. */
    method SetFieldName(fieldName: string)
      modifies this`key
      ensures key == if old(key).None? then Some(fieldName) else old(key)
    {
      if key.None? {
        key := Some(fieldName);
      }
    }
  }
}
