/** The typed failures of the binding engine and the message each carries. */
module Errors {
  import Text
  import opened Wrappers

  datatype ConfError =
    | IllegalPropertyValue(kind: string, value: string)
    | MissingProperties(properties: seq<string>)
    | ReadBeforeWrite(property: string)

  const IllegalValueLead := "could not parse "
  const MissingLead := "confEager object missing properties: "
  const ReadBeforeWriteLead := "cannot read configuration property "
  const ReadBeforeWriteTail := " before it has been populated, bind the configuration instance first."

  /** The `message` of the Error each failure is raised as. */
  function Message(e: ConfError): string {
    match e
    case IllegalPropertyValue(kind, value) => IllegalValueLead + kind + " from value `" + value + "`"
    case MissingProperties(properties) => MissingLead + Text.Join(properties, ", ")
    case ReadBeforeWrite(property) => ReadBeforeWriteLead + property + ReadBeforeWriteTail
  }

  datatype Kind = IllegalValueKind | MissingKind | ReadBeforeWriteKind

  function KindOf(e: ConfError): Kind {
    match e
    case IllegalPropertyValue(_, _) => IllegalValueKind
    case MissingProperties(_) => MissingKind
    case ReadBeforeWrite(_) => ReadBeforeWriteKind
  }

  /** Tells the kind of a failure from its message alone, by its lead words. */
  function KindOfMessage(m: string): Option<Kind> {
    if |m| >= |IllegalValueLead| && m[..|IllegalValueLead|] == IllegalValueLead then Some(IllegalValueKind)
    else if |m| >= |MissingLead| && m[..|MissingLead|] == MissingLead then Some(MissingKind)
    else if |m| >= |ReadBeforeWriteLead| && m[..|ReadBeforeWriteLead|] == ReadBeforeWriteLead then Some(ReadBeforeWriteKind)
    else None
  }

  /** The three failures are told apart by their messages: the message of
      every failure names its own kind and no other. */
  lemma MessageTellsKind(e: ConfError)
    ensures KindOfMessage(Message(e)) == Some(KindOf(e))
  {
    var m := Message(e);
    match e
    case IllegalPropertyValue(kind, value) =>
      assert m[..|IllegalValueLead|] == IllegalValueLead;
    case MissingProperties(properties) =>
      assert m[..|MissingLead|] == MissingLead;
      assert m[2] != IllegalValueLead[2];
    case ReadBeforeWrite(property) =>
      assert m[..|ReadBeforeWriteLead|] == ReadBeforeWriteLead;
      assert m[1] != IllegalValueLead[1] && m[1] != MissingLead[1];
  }

  /** The illegal-value message quotes the kind and, between backticks, the
      raw value, so two different (kind, value) pairs with the same kind
      never share a message. */
  lemma IllegalValueMessageNamesValue(kind: string, v1: string, v2: string)
    requires Message(IllegalPropertyValue(kind, v1)) == Message(IllegalPropertyValue(kind, v2))
    ensures v1 == v2
  {
    var head := IllegalValueLead + kind + " from value `";
    assert Message(IllegalPropertyValue(kind, v1)) == head + v1 + "`";
    assert Message(IllegalPropertyValue(kind, v2)) == head + v2 + "`";
    assert |v1| == |v2|;
    assert v1 == (head + v1 + "`")[|head|..|head| + |v1|];
    assert v2 == (head + v2 + "`")[|head|..|head| + |v2|];
  }

  /** The missing-properties message lists every given name, in the given
      order, after its lead words and separated by ", ". */
  lemma MissingMessageListsNames(names: seq<string>, i: nat)
    requires i < |names|
    ensures var m := Message(MissingProperties(names));
            var at := |MissingLead| + Text.JoinOffset(names, ", ", i);
            && at + |names[i]| <= |m|
            && m[at..at + |names[i]|] == names[i]
            && (i + 1 < |names| ==> at + |names[i]| < |MissingLead| + Text.JoinOffset(names, ", ", i + 1))
  {
    Text.JoinContainsParts(names, ", ", i);
    var j := Text.Join(names, ", ");
    assert Message(MissingProperties(names)) == MissingLead + j;
    SliceAfterLead(MissingLead, j, Text.JoinOffset(names, ", ", i), |names[i]|);
  }

  /** A slice of the text after some lead words, located by its offset in that text. */
  lemma SliceAfterLead(lead: string, text: string, o: nat, n: nat)
    requires o + n <= |text|
    ensures (lead + text)[|lead| + o..|lead| + o + n] == text[o..o + n]
  {
  }

  // ------------------------------------------ the tagging helper as written

  /** What a `throw` statement throws: `undefined`, or an Error raised for a
      failure. */
  datatype Thrown = Undefined | Raised(failure: ConfError)

  /** The tagging helper `error(type, format, ...params)` as written: it
      builds and tags an Error but has no `return`, so every call of it
      yields `undefined`, whatever its arguments. */
  function TaggedErrorAsWritten(kind: Kind, format: string, params: seq<string>): Thrown {
    Undefined
  }

  /** So `throw error(MISSING_PROPERTIES_ERROR, ...)` in populate throws
      `undefined`: no failure is raised, let alone one that lists the missing
      names, which is what the typed missing-properties error carries. */
  lemma MissingThrowAsWrittenLosesList(names: seq<string>)
    ensures TaggedErrorAsWritten(MissingKind, MissingLead + "%s", names) != Raised(MissingProperties(names))
    ensures forall e :: TaggedErrorAsWritten(MissingKind, MissingLead + "%s", names) != Raised(e)
  {
  }
}
