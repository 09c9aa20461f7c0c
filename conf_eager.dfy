/** A configuration object: the fields it declares, an optional prefix for
    its keys and a filter on its field names. */
module ConfEager {
  import opened Wrappers
  import opened ConfEagerProperty
  import opened Binding

  /** `_prefix()`: an object that does not override it has no prefix. */
  function DefaultPrefix(): (r: string)
    ensures |r| == 0
  {
    ""
  }

  class ConfObject {
    /** The object's own fields in `Object.keys` order, each with the
        property it holds, if it holds one. */
    const fields: seq<(string, Option<Property>)>
    /** The object's environment prefix; `None` stands for `null`. */
    const environment: Option<string>
    /** The property filter applied to field names. */
    const keep: string -> bool

    constructor(fields: seq<(string, Option<Property>)>, environment: Option<string>, keep: string -> bool)
      ensures this.fields == fields && this.environment == environment && this.keep == keep
    {
      this.fields := fields;
      this.environment := environment;
      this.keep := keep;
    }

    /** The prefix of every key of the object: a `null` one reads as empty. */
    function Prefix(): (r: string)
      ensures environment.None? ==> r == DefaultPrefix()
      ensures environment.Some? ==> r == environment.value
    {
      if environment.None? then "" else environment.value
    }

    /** The properties of the fields that pass the filter, in field order. */
    function Properties(): seq<Property> {
      Collect<Property>(fields, keep)
    }
  }

  /** The flat key a property is looked up by: the prefix, then its name. */
  function LookupKey(prefix: string, name: string): string {
    prefix + name
  }

  /** The key splits back into the prefix and the property name. */
  lemma LookupKeySplits(prefix: string, name: string)
    ensures |LookupKey(prefix, name)| == |prefix| + |name|
    ensures LookupKey(prefix, name)[..|prefix|] == prefix
    ensures LookupKey(prefix, name)[|prefix|..] == name
  {
  }

  /** Without a prefix a property is looked up by its own name. */
  lemma DefaultPrefixKey(name: string)
    ensures LookupKey(DefaultPrefix(), name) == name
  {
  }

  /** Under one prefix, different names look up different keys, so the
      prefix never merges two properties. */
  lemma LookupKeyInjective(prefix: string, a: string, b: string)
    ensures LookupKey(prefix, a) == LookupKey(prefix, b) <==> a == b
  {
    if LookupKey(prefix, a) == LookupKey(prefix, b) {
      LookupKeySplits(prefix, a);
      LookupKeySplits(prefix, b);
    }
  }
}
