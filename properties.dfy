/** The out-of-the-box value mappers: how a raw string from a source becomes
    the typed value of a boolean, string, string-array, boolean-array or
    enum property. */
module Mappers {
  import opened Wrappers
  import opened Errors
  import Text

  /** A value found on a TypeScript enum object: a number for a member name,
      a string (the member name) for a reverse-mapping key, or the function
      or object of that name every object inherits from `Object.prototype`. */
  datatype EnumMember = NumberMember(n: int) | StringMember(s: string) | Inherited(name: string)

  /** The typed value a property holds. */
  datatype Value = Bool(b: bool) | Str(s: string) | Array(items: seq<Value>) | Member(m: EnumMember)

  /** A runtime enum object as its own keys, in `Object.keys` order, each with its value. */
  type EnumObject = seq<(string, EnumMember)>

  /** The `map` a property type implements. `Enum` carries the enum object
      and its `caseSensitive` flag (an omitted flag is false). */
  datatype Mapper =
    | Boolean
    | String
    | StringArray
    | BooleanArray
    | Enum(enumObject: EnumObject, caseSensitive: bool)

  predicate IsArray(m: Mapper) {
    m.StringArray? || m.BooleanArray?
  }

  /** The `mapElement` an array type applies to each element. */
  function ElementOf(m: Mapper): (e: Mapper)
    requires IsArray(m)
    ensures !IsArray(e)
  {
    if m.StringArray? then String else Boolean
  }

  // ---------------------------------------------------------------- boolean

  /** The text the boolean mapper compares: trimmed, then lower-cased. */
  function Normalised(raw: string): string {
    Text.ToLower(Text.Trim(raw))
  }

  function BooleanMapper(raw: string): Result<bool, ConfError> {
    var v := Normalised(raw);
    if v == "true" || v == "1" then Success(true)
    else if v == "false" || v == "0" then Success(false)
    else Failure(IllegalPropertyValue("boolean", v))
  }

  /** What JavaScript's `String(b)` gives for a boolean. */
  function BooleanText(b: bool): string {
    if b then "true" else "false"
  }

  /** The boolean mapper accepts exactly the four spellings, reads each as
      its truth value, and otherwise names the normalised input in its error. */
  lemma BooleanMapperSpec(raw: string)
    ensures BooleanMapper(raw) == Success(true) <==> Normalised(raw) in {"true", "1"}
    ensures BooleanMapper(raw) == Success(false) <==> Normalised(raw) in {"false", "0"}
    ensures BooleanMapper(raw).Failure? <==> Normalised(raw) !in {"true", "1", "false", "0"}
    ensures BooleanMapper(raw).Failure? ==> BooleanMapper(raw).error == IllegalPropertyValue("boolean", Normalised(raw))
  {
  }

  /** Parsing the text of a boolean, with any white space around it, gives
      the boolean back. */
  lemma {:induction false} BooleanRoundTrip(b: bool, w1: string, w2: string)
    requires Text.AllWhiteSpace(w1) && Text.AllWhiteSpace(w2)
    ensures BooleanMapper(w1 + BooleanText(b) + w2) == Success(b)
  {
    var t := BooleanText(b);
    Text.TrimIgnoresPadding(w1, t, w2);
    if b { PaddedTrue(); } else { PaddedFalse(); }
  }

  /** Upper-case letters are read like lower-case ones: `" TRUE "` is true. */
  lemma BooleanIgnoresCase()
    ensures BooleanMapper(" TRUE ") == Success(true)
    ensures BooleanMapper("False") == Success(false)
    ensures BooleanMapper("illegal value") == Failure(IllegalPropertyValue("boolean", "illegal value"))
  {
    PaddedUpperTrue();
    CapitalisedFalse();
    IllegalValueWords();
  }

  lemma PaddedUpperTrue()
    ensures Normalised(" TRUE ") == "true"
  {
    Text.TrimIgnoresPadding(" ", "TRUE", " ");
    assert " TRUE " == " " + "TRUE" + " ";
    Text.TrimUnpadded("TRUE");
    assert Text.ToLower("TRUE") == "true";
  }

  lemma CapitalisedFalse()
    ensures Normalised("False") == "false"
  {
    Text.TrimUnpadded("False");
    assert Text.ToLower("False") == "false";
  }

  lemma IllegalValueWords()
    ensures Normalised("illegal value") == "illegal value"
  {
    Text.TrimUnpadded("illegal value");
    assert Text.ToLower("illegal value") == "illegal value";
  }

  // ------------------------------------------------------------------- enum

  /** The value of the first entry, in key order, whose key is accepted. */
  function FirstWhere(obj: EnumObject, accept: string -> bool): Option<EnumMember>
    decreases |obj|
  {
    if obj == [] then None
    else if accept(obj[0].0) then Some(obj[0].1)
    else FirstWhere(obj[1..], accept)
  }

  /** `enumObject[key]` restricted to the object's own keys: the value of the
      first entry with exactly that key. */
  function OwnLookup(obj: EnumObject, key: string): Option<EnumMember> {
    FirstWhere(obj, k => k == key)
  }

  /** The names every object inherits from `Object.prototype` (section 20.1.3
      of ECMAScript 2023), none of them `undefined`. */
  const ObjectPrototypeNames: set<string> :=
    {"constructor", "hasOwnProperty", "isPrototypeOf", "propertyIsEnumerable", "toLocaleString",
     "toString", "valueOf", "__proto__", "__defineGetter__", "__defineSetter__",
     "__lookupGetter__", "__lookupSetter__"}

  /** `enumObject[key]`: an own key first, else a name the object inherits. */
  function PropertyLookup(obj: EnumObject, key: string): Option<EnumMember> {
    match OwnLookup(obj, key)
    case Some(m) => Some(m)
    case None => if key in ObjectPrototypeNames then Some(Inherited(key)) else None
  }

  /** A key the case-insensitive search considers: one that is not numeric
      (numeric keys are the reverse mappings of a numeric enum) and that
      lower-cases to `target`. */
  predicate Candidate(key: string, target: string) {
    !Text.IsNumeric(key) && Text.ToLower(key) == target
  }

  /** The value of the first candidate key for `target`, in key order. */
  function InsensitiveMatch(obj: EnumObject, target: string): Option<EnumMember> {
    FirstWhere(obj, k => Candidate(k, target))
  }

  function EnumMapping(obj: EnumObject, caseSensitive: bool, raw: string): Result<Value, ConfError> {
    var found := if caseSensitive then PropertyLookup(obj, raw) else InsensitiveMatch(obj, Text.ToLower(Text.Trim(raw)));
    match found
    case Some(m) => Success(Member(m))
    case None => Failure(IllegalPropertyValue("enum", raw))
  }

  /** Case-sensitive matching is a property lookup on the untrimmed input:
      it succeeds exactly when some own key equals `raw` or `raw` is an
      inherited name; an own key wins, with the value of the first such key;
      otherwise it fails naming the raw input. */
  lemma {:induction false} CaseSensitiveSpec(obj: EnumObject, raw: string)
    ensures EnumMapping(obj, true, raw).Success? <==>
              (exists i :: 0 <= i < |obj| && obj[i].0 == raw) || raw in ObjectPrototypeNames
    ensures forall i :: 0 <= i < |obj| && obj[i].0 == raw && (forall j :: 0 <= j < i ==> obj[j].0 != raw)
              ==> EnumMapping(obj, true, raw) == Success(Member(obj[i].1))
    ensures raw in ObjectPrototypeNames && (forall i :: 0 <= i < |obj| ==> obj[i].0 != raw) ==>
              EnumMapping(obj, true, raw) == Success(Member(Inherited(raw)))
    ensures EnumMapping(obj, true, raw).Failure? ==> EnumMapping(obj, true, raw).error == IllegalPropertyValue("enum", raw)
  {
    OwnLookupSpec(obj, raw);
  }

  /** The search finds a member exactly when some key is accepted, and then
      the value of the first accepted key. */
  lemma {:induction false} FirstWhereSpec(obj: EnumObject, accept: string -> bool)
    ensures FirstWhere(obj, accept).Some? <==> exists i :: 0 <= i < |obj| && accept(obj[i].0)
    ensures forall i :: 0 <= i < |obj| && accept(obj[i].0) && (forall j :: 0 <= j < i ==> !accept(obj[j].0))
              ==> FirstWhere(obj, accept) == Some(obj[i].1)
    decreases |obj|
  {
    if obj != [] {
      FirstWhereSpec(obj[1..], accept);
      if !accept(obj[0].0) {
        if FirstWhere(obj, accept).Some? {
          var i :| 0 <= i < |obj[1..]| && accept(obj[1..][i].0);
          assert accept(obj[i + 1].0);
        }
        forall i | 0 < i < |obj| && accept(obj[i].0)
          ensures accept(obj[1..][i - 1].0)
        {
        }
        forall i | 0 <= i < |obj| && accept(obj[i].0) && (forall j :: 0 <= j < i ==> !accept(obj[j].0))
          ensures FirstWhere(obj, accept) == Some(obj[i].1)
        {
          assert i > 0;
          assert forall j :: 0 <= j < i - 1 ==> obj[1..][j].0 == obj[j + 1].0;
        }
      }
    }
  }

  lemma OwnLookupSpec(obj: EnumObject, key: string)
    ensures OwnLookup(obj, key).Some? <==> exists i :: 0 <= i < |obj| && obj[i].0 == key
    ensures forall i :: 0 <= i < |obj| && obj[i].0 == key && (forall j :: 0 <= j < i ==> obj[j].0 != key)
              ==> OwnLookup(obj, key) == Some(obj[i].1)
  {
    FirstWhereSpec(obj, k => k == key);
  }

  /** Case-insensitive matching trims the input, skips numeric keys, and
      yields the value of the first remaining key equal to the input when
      both are lower-cased; with no such key it fails naming the raw input. */
  lemma {:induction false} CaseInsensitiveSpec(obj: EnumObject, raw: string)
    ensures var t := Text.ToLower(Text.Trim(raw));
            EnumMapping(obj, false, raw).Success? <==> exists i :: 0 <= i < |obj| && Candidate(obj[i].0, t)
    ensures var t := Text.ToLower(Text.Trim(raw));
            forall i :: 0 <= i < |obj| && Candidate(obj[i].0, t) && (forall j :: 0 <= j < i ==> !Candidate(obj[j].0, t))
              ==> EnumMapping(obj, false, raw) == Success(Member(obj[i].1))
    ensures EnumMapping(obj, false, raw).Failure? ==> EnumMapping(obj, false, raw).error == IllegalPropertyValue("enum", raw)
  {
    InsensitiveMatchSpec(obj, Text.ToLower(Text.Trim(raw)));
  }

  lemma InsensitiveMatchSpec(obj: EnumObject, t: string)
    ensures InsensitiveMatch(obj, t).Some? <==> exists i :: 0 <= i < |obj| && Candidate(obj[i].0, t)
    ensures forall i :: 0 <= i < |obj| && Candidate(obj[i].0, t) && (forall j :: 0 <= j < i ==> !Candidate(obj[j].0, t))
              ==> InsensitiveMatch(obj, t) == Some(obj[i].1)
  {
    FirstWhereSpec(obj, k => Candidate(k, t));
  }

  /** When the input is a non-numeric own key without surrounding white
      space, the case-insensitive search finds a member too. */
  lemma SensitiveMatchImpliesInsensitive(obj: EnumObject, raw: string, i: nat)
    requires i < |obj| && obj[i].0 == raw
    requires !Text.IsNumeric(raw) && Text.Trim(raw) == raw
    ensures EnumMapping(obj, true, raw).Success?
    ensures EnumMapping(obj, false, raw).Success?
  {
    CaseSensitiveSpec(obj, raw);
    assert Candidate(obj[i].0, Text.ToLower(Text.Trim(raw)));
    CaseInsensitiveSpec(obj, raw);
  }

  /** The enum mapper searches the keys in order, skipping numeric ones, and
      returns at the first match. */
  method EnumMap(obj: EnumObject, caseSensitive: bool, raw: string) returns (r: Result<Value, ConfError>)
    ensures r == EnumMapping(obj, caseSensitive, raw)
  {
    if caseSensitive {
      var found := PropertyLookup(obj, raw);
      if found.Some? {
        return Success(Member(found.value));
      }
    } else {
      var target := Text.ToLower(Text.Trim(raw));
      var i := 0;
      while i < |obj|
        invariant 0 <= i <= |obj|
        invariant InsensitiveMatch(obj, target) == InsensitiveMatch(obj[i..], target)
      {
        var key := obj[i].0;
        assert obj[i..][1..] == obj[i + 1..];
        if Text.IsNumeric(key) {
          i := i + 1;
          continue;
        }
        if Text.ToLower(key) == target {
          return Success(Member(obj[i].1));
        }
        i := i + 1;
      }
    }
    return Failure(IllegalPropertyValue("enum", raw));
  }

  /** `enum Foo {VALUE1}` as TypeScript emits it: the reverse key "0" first. */
  const Foo: EnumObject := [("0", StringMember("VALUE1")), ("VALUE1", NumberMember(0))]

  /** `"value1"` matches `Foo.VALUE1` case-insensitively, skipping the
      numeric reverse key "0". */
  lemma EnumInsensitiveExample()
    ensures EnumMapping(Foo, false, "value1") == Success(Member(NumberMember(0)))
    ensures EnumMapping(Foo, false, "VALUE1") == Success(Member(NumberMember(0)))
  {
    FooMatchesValue1();
    assert Text.ToLower(Text.Trim("value1")) == "value1" by {
      Text.TrimUnpadded("value1");
      assert Text.ToLower("value1") == "value1";
    }
    assert Text.ToLower(Text.Trim("VALUE1")) == "value1" by {
      Text.TrimUnpadded("VALUE1");
      LowerValue1();
    }
  }

  lemma LowerValue1()
    ensures Text.ToLower("VALUE1") == "value1"
  {
  }

  /** The search for `"value1"` skips the numeric key "0" and stops at "VALUE1". */
  lemma FooMatchesValue1()
    ensures InsensitiveMatch(Foo, "value1") == Some(NumberMember(0))
  {
    assert !Candidate("0", "value1") by {
      Text.NatStringIsNumeric(0);
      assert Text.NatToString(0) == "0";
    }
    assert Candidate("VALUE1", "value1") by {
      Text.IdentifierIsNotNumeric("VALUE1");
      LowerValue1();
    }
    assert Foo[1..] == [("VALUE1", NumberMember(0))];
  }

  /** The case-sensitive lookup finds `"VALUE1"` and rejects `"value1"`. */
  lemma EnumSensitiveExample()
    ensures EnumMapping(Foo, true, "VALUE1") == Success(Member(NumberMember(0)))
    ensures EnumMapping(Foo, true, "value1") == Failure(IllegalPropertyValue("enum", "value1"))
  {
    assert Foo[1..] == [("VALUE1", NumberMember(0))];
    assert Foo[1..][1..] == [];
  }

  /** An input that is no member's name fails, naming the raw input. */
  lemma EnumRejectExample()
    ensures EnumMapping(Foo, false, "illegal value") == Failure(IllegalPropertyValue("enum", "illegal value"))
  {
    Text.TrimUnpadded("illegal value");
    assert Text.ToLower("illegal value") == "illegal value";
    assert Text.ToLower("0") != "illegal value";
    assert Text.ToLower("VALUE1") != "illegal value";
    assert Foo[1..] == [("VALUE1", NumberMember(0))];
    assert Foo[1..][1..] == [];
  }

  /** An inherited name is found by the case-sensitive lookup of an enum
      without such a key, but not by the case-insensitive search, which
      only sees the own keys. */
  lemma EnumInheritedExample()
    ensures EnumMapping(Foo, true, "toString") == Success(Member(Inherited("toString")))
    ensures EnumMapping(Foo, false, "toString") == Failure(IllegalPropertyValue("enum", "toString"))
  {
    assert Foo[1..] == [("VALUE1", NumberMember(0))];
    assert Foo[1..][1..] == [];
    Text.TrimUnpadded("toString");
    assert Text.ToLower("toString")[1] == 'o';
    assert |Text.ToLower("0")| == 1;
    assert Text.ToLower("VALUE1")[1] == 'a';
  }

  // ------------------------------------------------------------------ arrays

  /** The elements the array mapper parses: the pieces, trimmed, with the
      empty ones dropped, in order. */
  function Elements(pieces: seq<string>): seq<string>
    decreases |pieces|
  {
    if pieces == [] then []
    else
      var t := Text.Trim(pieces[|pieces| - 1]);
      Elements(pieces[..|pieces| - 1]) + (if t == "" then [] else [t])
  }

  /** The elements are never more than the pieces. */
  lemma {:induction false} ElementsLength(pieces: seq<string>)
    ensures |Elements(pieces)| <= |pieces|
    decreases |pieces|
  {
    if pieces != [] {
      ElementsLength(pieces[..|pieces| - 1]);
    }
  }

  /** The elements are never more than the pieces; each is non-empty, has no
      white space at either end, and is the trimmed form of some piece. */
  lemma {:induction false} ElementsSpec(pieces: seq<string>)
    ensures |Elements(pieces)| <= |pieces|
    ensures forall k :: 0 <= k < |Elements(pieces)| ==>
              var x := Elements(pieces)[k];
              && x != []
              && !Text.IsWhiteSpace(x[0]) && !Text.IsWhiteSpace(x[|x| - 1])
              && exists i :: 0 <= i < |pieces| && x == Text.Trim(pieces[i])
    decreases |pieces|
  {
    if pieces != [] {
      var init := pieces[..|pieces| - 1];
      ElementsSpec(init);
      var t := Text.Trim(pieces[|pieces| - 1]);
      Text.TrimIsSlice(pieces[|pieces| - 1]);
      var es := Elements(pieces);
      forall k | 0 <= k < |es|
        ensures exists i :: 0 <= i < |pieces| && es[k] == Text.Trim(pieces[i])
      {
        if k < |Elements(init)| {
          var i :| 0 <= i < |init| && Elements(init)[k] == Text.Trim(init[i]);
          assert pieces[i] == init[i];
        } else {
          assert es[k] == Text.Trim(pieces[|pieces| - 1]);
        }
      }
    }
  }

  /** Array elements are parsed one after the other; the first element that
      fails makes the whole array fail with that element's error. */
  function MapPieces(f: string -> Result<Value, ConfError>, pieces: seq<string>): Result<seq<Value>, ConfError>
    decreases |pieces|
  {
    if pieces == [] then Success([])
    else
      match MapPieces(f, pieces[..|pieces| - 1])
      case Failure(err) => Failure(err)
      case Success(done) =>
        var t := Text.Trim(pieces[|pieces| - 1]);
        if t == "" then Success(done)
        else
          match f(t)
          case Failure(err) => Failure(err)
          case Success(v) => Success(done + [v])
  }

  /** The parsed array: it exists exactly when every element parses, and then
      holds the parsed elements in order. */
  lemma {:induction false} MapPiecesSuccess(f: string -> Result<Value, ConfError>, pieces: seq<string>)
    ensures MapPieces(f, pieces).Success? <==>
              forall k :: 0 <= k < |Elements(pieces)| ==> f(Elements(pieces)[k]).Success?
    ensures MapPieces(f, pieces).Success? ==>
              && |MapPieces(f, pieces).value| == |Elements(pieces)|
              && forall k :: 0 <= k < |Elements(pieces)| ==> MapPieces(f, pieces).value[k] == f(Elements(pieces)[k]).value
    decreases |pieces|
  {
    if pieces != [] {
      var init := pieces[..|pieces| - 1];
      MapPiecesSuccess(f, init);
      var xs0 := Elements(init);
      var xs := Elements(pieces);
      var t := Text.Trim(pieces[|pieces| - 1]);
      assert xs[..|xs0|] == xs0;
      assert xs == xs0 + (if t == "" then [] else [t]);
      forall k | 0 <= k < |xs0| ensures xs[k] == xs0[k] { }
      if MapPieces(f, init).Failure? {
        assert MapPieces(f, pieces) == MapPieces(f, init);
        var k :| 0 <= k < |xs0| && !f(xs0[k]).Success?;
        assert !f(xs[k]).Success?;
      } else if t != "" {
        assert xs[|xs0|] == t;
        if f(t).Failure? {
          assert !f(xs[|xs0|]).Success?;
        }
      } else {
        assert xs == xs0;
        assert MapPieces(f, pieces) == MapPieces(f, init);
      }
    }
  }

  /** Element `k` is the first that does not parse, and fails with `err`. */
  predicate FailsFirstAt(f: string -> Result<Value, ConfError>, xs: seq<string>, k: int, err: ConfError) {
    && 0 <= k < |xs|
    && (forall j :: 0 <= j < k ==> f(xs[j]).Success?)
    && f(xs[k]) == Failure(err)
  }

  /** The failed array: the error is that of the first element that does not
      parse. */
  lemma {:induction false} MapPiecesFailure(f: string -> Result<Value, ConfError>, pieces: seq<string>)
    ensures MapPieces(f, pieces).Failure? ==>
              exists k :: FailsFirstAt(f, Elements(pieces), k, MapPieces(f, pieces).error)
    decreases |pieces|
  {
    if pieces != [] {
      var init := pieces[..|pieces| - 1];
      var xs0 := Elements(init);
      var xs := Elements(pieces);
      var t := Text.Trim(pieces[|pieces| - 1]);
      assert xs[..|xs0|] == xs0;
      assert xs == xs0 + (if t == "" then [] else [t]);
      if MapPieces(f, init).Failure? {
        assert MapPieces(f, pieces) == MapPieces(f, init);
        MapPiecesFailure(f, init);
        var k :| FailsFirstAt(f, xs0, k, MapPieces(f, init).error);
        assert xs[k] == xs0[k];
        forall j | 0 <= j < k ensures f(xs[j]).Success? { assert xs[j] == xs0[j]; }
        assert FailsFirstAt(f, xs, k, MapPieces(f, pieces).error);
      } else if t != "" && f(t).Failure? {
        MapPiecesSuccess(f, init);
        assert MapPieces(f, pieces).error == f(t).error;
        assert xs[|xs0|] == t;
        forall j | 0 <= j < |xs0| ensures f(xs[j]).Success? { assert xs[j] == xs0[j]; }
        assert FailsFirstAt(f, xs, |xs0|, MapPieces(f, pieces).error);
      } else {
        assert MapPieces(f, pieces).Success?;
      }
    }
  }

  /** All or nothing: the array parses exactly when every element parses,
      and then holds the parsed elements in order; otherwise it fails with the
      error of the first element that does not parse. */
  lemma MapPiecesSpec(f: string -> Result<Value, ConfError>, pieces: seq<string>)
    ensures MapPieces(f, pieces).Success? <==>
              forall k :: 0 <= k < |Elements(pieces)| ==> f(Elements(pieces)[k]).Success?
    ensures MapPieces(f, pieces).Success? ==>
              && |MapPieces(f, pieces).value| == |Elements(pieces)|
              && forall k :: 0 <= k < |Elements(pieces)| ==> MapPieces(f, pieces).value[k] == f(Elements(pieces)[k]).value
    ensures MapPieces(f, pieces).Failure? ==>
              exists k :: FailsFirstAt(f, Elements(pieces), k, MapPieces(f, pieces).error)
  {
    MapPiecesSuccess(f, pieces);
    MapPiecesFailure(f, pieces);
  }

  // --------------------------------------------------------------- dispatch

  /** `map` of the non-array property types. */
  function MapScalar(m: Mapper, raw: string): Result<Value, ConfError>
    requires !IsArray(m)
  {
    match m
    case Boolean => (match BooleanMapper(raw) case Success(b) => Success(Bool(b)) case Failure(err) => Failure(err))
    case String => Success(Str(raw))
    case Enum(obj, caseSensitive) => EnumMapping(obj, caseSensitive, raw)
  }

  /** The `mapElement` of an array type as a function on one trimmed element. */
  function ElementMapper(m: Mapper): string -> Result<Value, ConfError>
    requires IsArray(m)
  {
    t => MapScalar(ElementOf(m), t)
  }

  /** The `map` of each property type: arrays split their input on `,`. */
  function Map(m: Mapper, raw: string): Result<Value, ConfError> {
    if IsArray(m) then
      match MapPieces(ElementMapper(m), Text.Split(raw, ','))
      case Success(vs) => Success(Array(vs))
      case Failure(err) => Failure(err)
    else MapScalar(m, raw)
  }

  /** Every mapper failure is an illegal-value error of kind boolean or enum. */
  lemma {:induction false} MapFailsWithIllegalValue(m: Mapper, raw: string)
    ensures Map(m, raw).Failure? ==>
              && Map(m, raw).error.IllegalPropertyValue?
              && Map(m, raw).error.kind in {"boolean", "enum"}
  {
    if IsArray(m) && Map(m, raw).Failure? {
      var f := ElementMapper(m);
      var pieces := Text.Split(raw, ',');
      MapPiecesFailure(f, pieces);
      var k :| FailsFirstAt(f, Elements(pieces), k, MapPieces(f, pieces).error);
    }
  }

  /** The String mapper is the identity. */
  lemma StringIsIdentity(raw: string)
    ensures Map(String, raw) == Success(Str(raw))
  {
  }

  /** A string array holds exactly the trimmed, non-empty comma-separated
      pieces of its input, in order; none is empty, contains a comma or has
      white space at either end. */
  lemma StringArraySpec(raw: string)
    ensures var xs := Elements(Text.Split(raw, ','));
            && Map(StringArray, raw) == Success(Array(seq(|xs|, k requires 0 <= k < |xs| => Str(xs[k]))))
            && |xs| <= |Text.Split(raw, ',')|
            && forall k :: 0 <= k < |xs| ==>
                 && xs[k] != [] && ',' !in xs[k]
                 && !Text.IsWhiteSpace(xs[k][0]) && !Text.IsWhiteSpace(xs[k][|xs[k]| - 1])
  {
    var pieces := Text.Split(raw, ',');
    var f := ElementMapper(StringArray);
    var xs := Elements(pieces);
    var r := MapPieces(f, pieces);
    assert Map(StringArray, raw) == if r.Success? then Success(Array(r.value)) else Failure(r.error);
    forall k | 0 <= k < |xs| ensures f(xs[k]) == Success(Str(xs[k])) { }
    MapPiecesSpec(f, pieces);
    assert r.value == seq(|xs|, k requires 0 <= k < |xs| => Str(xs[k]));
    ElementsSpec(pieces);
    Text.SplitPiecesLackSeparator(raw, ',');
    forall k | 0 <= k < |xs| ensures ',' !in xs[k] {
      var i :| 0 <= i < |pieces| && xs[k] == Text.Trim(pieces[i]);
      TrimKeepsOut(pieces[i], ',');
    }
  }

  /** A character absent from a text is absent from its trimmed form. */
  lemma TrimKeepsOut(s: string, c: char)
    requires c !in s
    ensures c !in Text.Trim(s)
  {
    Text.TrimIsSlice(s);
    var a, b :| 0 <= a <= b <= |s| && Text.Trim(s) == s[a..b];
    forall k | 0 <= k < b - a ensures s[a..b][k] != c {
      assert s[a..b][k] == s[a + k];
    }
  }

  /** A boolean array parses exactly when every element is one of the four
      boolean spellings; never more values than comma-separated pieces. */
  lemma BooleanArraySpec(raw: string)
    ensures var xs := Elements(Text.Split(raw, ','));
            && (Map(BooleanArray, raw).Success? <==> forall k :: 0 <= k < |xs| ==> BooleanMapper(xs[k]).Success?)
            && (Map(BooleanArray, raw).Success? ==>
                  && |Map(BooleanArray, raw).value.items| == |xs| <= |Text.Split(raw, ',')|
                  && forall k :: 0 <= k < |xs| ==> Map(BooleanArray, raw).value.items[k] == Bool(BooleanMapper(xs[k]).value))
  {
    var pieces := Text.Split(raw, ',');
    var f := ElementMapper(BooleanArray);
    var xs := Elements(pieces);
    var r := MapPieces(f, pieces);
    assert Map(BooleanArray, raw) == if r.Success? then Success(Array(r.value)) else Failure(r.error);
    MapPiecesSpec(f, pieces);
    ElementsLength(pieces);
    forall k | 0 <= k < |xs|
      ensures f(xs[k]).Success? <==> BooleanMapper(xs[k]).Success?
      ensures f(xs[k]).Success? ==> f(xs[k]).value == Bool(BooleanMapper(xs[k]).value)
    {
      assert f(xs[k]) == MapScalar(Boolean, xs[k]);
    }
  }

  /** An array input without a comma is one element. */
  lemma {:induction false} MapOnePiece(m: Mapper, x: string)
    requires IsArray(m) && ',' !in x && Text.Trim(x) != ""
    ensures var e := MapScalar(ElementOf(m), Text.Trim(x));
            && (e.Success? ==> Map(m, x) == Success(Array([e.value])))
            && (e.Failure? ==> Map(m, x) == Failure(e.error))
  {
    SplitNoSeparator(x, ',');
    var f := ElementMapper(m);
    var e := f(Text.Trim(x));
    assert e == MapScalar(ElementOf(m), Text.Trim(x));
    assert [x][..0] == [];
    assert MapPieces(f, []) == Success([]);
    assert [x][|[x]| - 1] == x;
    if e.Success? {
      assert [] + [e.value] == [e.value];
      assert MapPieces(f, [x]) == Success([e.value]);
    } else {
      assert MapPieces(f, [x]) == Failure(e.error);
    }
  }

  /** An array input with one comma is two elements, both parsed. */
  lemma {:induction false} MapTwoPieces(m: Mapper, x: string, y: string, vx: Value, vy: Value)
    requires IsArray(m) && ',' !in x && ',' !in y
    requires Text.Trim(x) != "" && Text.Trim(y) != ""
    requires MapScalar(ElementOf(m), Text.Trim(x)) == Success(vx)
    requires MapScalar(ElementOf(m), Text.Trim(y)) == Success(vy)
    ensures Map(m, x + [','] + y) == Success(Array([vx, vy]))
  {
    SplitOne(x, y, ',');
    var f := ElementMapper(m);
    assert f(Text.Trim(x)) == Success(vx);
    assert f(Text.Trim(y)) == Success(vy);
    var pieces := [x, y];
    assert [x][..0] == [];
    assert MapPieces(f, []) == Success([]);
    assert [x][|[x]| - 1] == x;
    assert [] + [vx] == [vx];
    assert MapPieces(f, [x]) == Success([vx]);
    assert pieces[..|pieces| - 1] == [x];
    assert pieces[|pieces| - 1] == y;
    assert [vx] + [vy] == [vx, vy];
    assert MapPieces(f, pieces) == Success([vx, vy]);
  }

  /** `" true , false "` is `[true, false]`. */
  lemma BooleanArrayExample()
    ensures Map(BooleanArray, " true " + "," + " false ") == Success(Array([Bool(true), Bool(false)]))
  {
    PaddedBooleanWords();
    MapTwoPieces(BooleanArray, " true ", " false ", Bool(true), Bool(false));
  }

  lemma PaddedBooleanWords()
    ensures Text.Trim(" true ") == "true" && Text.Trim(" false ") == "false"
    ensures MapScalar(Boolean, Text.Trim(" true ")) == Success(Bool(true))
    ensures MapScalar(Boolean, Text.Trim(" false ")) == Success(Bool(false))
  {
    PaddedTrue();
    PaddedFalse();
  }

  lemma PaddedTrue()
    ensures Text.Trim(" true ") == "true" && Text.Trim("true") == "true" && Normalised("true") == "true"
  {
    PaddedWord("true");
    assert " true " == " " + "true" + " ";
  }

  lemma PaddedFalse()
    ensures Text.Trim(" false ") == "false" && Text.Trim("false") == "false" && Normalised("false") == "false"
  {
    PaddedWord("false");
    assert " false " == " " + "false" + " ";
  }

  /** A lower-case word with one space either side trims to the word, and
      so normalises to itself. */
  lemma PaddedWord(x: string)
    requires x != [] && forall k :: 0 <= k < |x| ==> 'a' <= x[k] <= 'z'
    ensures Text.Trim(" " + x + " ") == x
    ensures Text.Trim(x) == x && Normalised(x) == x
  {
    TrimWord(" ", x, " ");
    Text.TrimUnpadded(x);
  }

  /** An input of nothing but separators and white space is the empty array. */
  lemma EmptyArrayExample(m: Mapper)
    requires IsArray(m)
    ensures Map(m, " , ") == Success(Array([]))
  {
    SplitNoSeparator(" ", ',');
    assert " , " == " " + [','] + " ";
    SplitOne(" ", " ", ',');
    Text.TrimIgnoresPadding(" ", "", "");
    assert " " == " " + "" + "";
    assert Text.TrimStart("") == "" && Text.TrimEnd("") == "";
    assert [" ", " "][..1] == [" "];
    assert [" "][..0] == [];
  }

  /** One element that is not a boolean makes a boolean array fail. */
  lemma BooleanArrayRejectExample()
    ensures Map(BooleanArray, "illegal value") == Failure(IllegalPropertyValue("boolean", "illegal value"))
  {
    var x := "illegal value";
    IllegalValueWords();
    assert BooleanMapper(x) == Failure(IllegalPropertyValue("boolean", x));
    Text.TrimUnpadded(x);
    assert ',' !in x;
    MapOnePiece(BooleanArray, x);
  }

  lemma TrimWord(w1: string, x: string, w2: string)
    requires Text.AllWhiteSpace(w1) && Text.AllWhiteSpace(w2)
    requires x != [] && forall k :: 0 <= k < |x| ==> 'a' <= x[k] <= 'z'
    ensures Text.Trim(w1 + x + w2) == x
  {
    Text.TrimIgnoresPadding(w1, x, w2);
    assert Text.TrimStart(x) == x;
    assert Text.TrimEnd(x) == x;
  }

  lemma {:induction false} SplitNoSeparator(s: string, sep: char)
    requires sep !in s
    ensures Text.Split(s, sep) == [s]
    decreases |s|
  {
    if s != [] {
      SplitNoSeparator(s[1..], sep);
      assert s == [s[0]] + s[1..];
    }
  }

  lemma {:induction false} SplitOne(a: string, b: string, sep: char)
    requires sep !in a && sep !in b
    ensures Text.Split(a + [sep] + b, sep) == [a, b]
    decreases |a|
  {
    if a == [] {
      assert a + [sep] + b == [sep] + b;
      assert ([sep] + b)[1..] == b;
      SplitNoSeparator(b, sep);
    } else {
      assert (a + [sep] + b)[1..] == a[1..] + [sep] + b;
      SplitOne(a[1..], b, sep);
      assert a == [a[0]] + a[1..];
    }
  }

  // ---------------------------------------------------------------- methods

  /** `Array.map`: split on `,`, trim each piece, skip the empty ones, and
      push each parsed element; the first element that fails aborts. */
  method MapArray(m: Mapper, raw: string) returns (r: Result<Value, ConfError>)
    requires IsArray(m)
    ensures r == Map(m, raw)
  {
    var e := ElementOf(m);
    ghost var f := ElementMapper(m);
    var pieces := Text.Split(raw, ',');
    var result: seq<Value> := [];
    var i := 0;
    while i < |pieces|
      invariant 0 <= i <= |pieces|
      invariant MapPieces(f, pieces[..i]) == Success(result)
    {
      assert pieces[..i + 1][..i] == pieces[..i];
      var trimmed := Text.Trim(pieces[i]);
      if trimmed != "" {
        var element := MapScalar(e, trimmed);
        if element.Failure? {
          assert MapPieces(f, pieces[..i + 1]) == Failure(element.error);
          MapPiecesFailureSticks(f, pieces, i + 1);
          return Failure(element.error);
        }
        result := result + [element.value];
      }
      i := i + 1;
    }
    assert pieces[..|pieces|] == pieces;
    r := Success(Array(result));
  }

  /** Once a prefix of the pieces fails, every longer prefix fails the same way. */
  lemma {:induction false} MapPiecesFailureSticks(f: string -> Result<Value, ConfError>, pieces: seq<string>, i: nat)
    requires i <= |pieces|
    requires MapPieces(f, pieces[..i]).Failure?
    ensures MapPieces(f, pieces) == MapPieces(f, pieces[..i])
    decreases |pieces| - i
  {
    if i < |pieces| {
      assert pieces[..i + 1][..i] == pieces[..i];
      MapPiecesFailureSticks(f, pieces, i + 1);
    } else {
      assert pieces[..i] == pieces;
    }
  }

  /** The `map` a property applies to a raw value, dispatched on its type. */
  method Apply(m: Mapper, raw: string) returns (r: Result<Value, ConfError>)
    ensures r == Map(m, raw)
  {
    if IsArray(m) {
      r := MapArray(m, raw);
    } else if m.Enum? {
      r := EnumMap(m.enumObject, m.caseSensitive, raw);
    } else {
      r := MapScalar(m, raw);
    }
  }
}
