/** A source of configuration and the objects bound to it. A source answers
    key lookups; binding an object discovers its properties, names them,
    populates them from the source and, on success, registers the object so
    that every later update of the source populates it again. */
module ConfEagerSource {
  import opened Wrappers
  import opened Errors
  import opened Mappers
  import opened ConfEagerProperty
  import opened ConfEager
  import opened ConfEagerSources
  import opened Binding

  /** The out-of-the-box sources, and a plain key-value source standing for
      a custom one. */
  datatype Kind = EnvironmentKind | KeyValueKind | CombinatorKind

  /** The current values of some property cells. */
  function ValuesOf(ps: seq<Property>): Store<Property>
    reads ps`value
  {
    map p | p in ps :: p.value
  }

  /** A store that has exactly the given cells as keys, each with its
      current value, is their values. */
  lemma ValuesOfEquals(ps: seq<Property>, m: Store<Property>)
    requires forall p :: p in m <==> p in ps
    requires forall p | p in ps :: m[p] == p.value
    ensures ValuesOf(ps) == m
  {
  }

  /** Populating some properties changes the values of a larger list of
      properties as the populated store of their old values, provided the
      rest of them keep their values. */
  lemma ValuesOfLift(all: seq<Property>, ps: seq<Property>, slots: seq<Slot>, s: Store<Property>, t: Store<Property>)
    requires |ps| == |slots|
    requires forall p | p in ps :: p in all
    requires forall p :: p in s <==> p in all
    requires forall p | p in ps :: p in t && t[p] == s[p]
    requires forall p | p in all && p !in ps :: p.value == s[p]
    requires ValuesOf(ps) == Populated(ps, slots, t)
    ensures ValuesOf(all) == Populated(ps, slots, s)
  {
    StoreAfterLocal(ps, slots, Stop(slots), s, t);
    var r := Populated(ps, slots, s);
    forall p | p in all ensures r[p] == p.value {
      if p in ps {
        assert ValuesOf(ps)[p] == p.value;
      }
    }
    ValuesOfEquals(all, r);
  }

  /** The update half of one populate step: a value found is handed to the
      property, which keeps it when it parses. */
  method Deliver(p: Property, found: Option<string>, ghost slot: Slot, ghost ps: seq<Property>) returns (u: Outcome<ConfError>)
    requires p in ps && slot.found == found && slot.parse == p.parse
    modifies p`value
    ensures ValuesOf(ps) == Step(old(ValuesOf(ps)), p, slot)
    ensures u == if ParseFails(slot) then Fail(slot.parse(slot.found.value).error) else Pass
    ensures p.value == if found.Some? && slot.parse(found.value).Success? then Some(slot.parse(found.value).value) else old(p.value)
  {
    if found.None? {
      u := Pass;
    } else {
      u := p.Update(found.value);
    }
    StepWritesOne(old(ValuesOf(ps)), p, slot);
    ValuesOfEquals(ps, Step(old(ValuesOf(ps)), p, slot));
  }

  /** Every property of a list of bindings, binding after binding. */
  function AllProps(bindings: seq<(ConfObject, seq<Property>)>): seq<Property>
    decreases |bindings|
  {
    if bindings == [] then []
    else AllProps(bindings[..|bindings| - 1]) + bindings[|bindings| - 1].1
  }

  lemma {:induction false} AllPropsContains(bindings: seq<(ConfObject, seq<Property>)>, i: nat)
    requires i < |bindings|
    ensures forall p :: p in bindings[i].1 ==> p in AllProps(bindings)
    decreases |bindings|
  {
    if i < |bindings| - 1 {
      AllPropsContains(bindings[..|bindings| - 1], i);
    }
  }

  /** `_confEagerMapping.get(object)` is set. */
  predicate Bound(bindings: seq<(ConfObject, seq<Property>)>, obj: ConfObject)
    decreases |bindings|
  {
    bindings != [] && (bindings[|bindings| - 1].0 == obj || Bound(bindings[..|bindings| - 1], obj))
  }

  class Source {
    const kind: Kind
    /** A combinator's sources, in priority order; fixed at construction. */
    const children: seq<Source>
    /** The environment, or the key-value data. */
    var data: map<string, string>
    /** `_confEagerMapping`: each bound object with its property list, in
        the order the objects were first bound. */
    var bindings: seq<(ConfObject, seq<Property>)>
    /** The height of the source below it, and the sources below it. */
    ghost const depth: nat
    ghost const Below: set<Source>

    ghost predicate Wf()
      decreases depth
    {
      forall c | c in children :: c in Below && c.Below <= Below && c.depth < depth && c.Wf()
    }

    /** `new EnvironmentVariables()`, reading the given environment. */
    constructor EnvironmentVariables(env: map<string, string>)
      ensures Wf() && kind == EnvironmentKind && children == [] && data == env && bindings == []
    {
      kind := EnvironmentKind;
      children := [];
      data := env;
      bindings := [];
      depth := 0;
      Below := {};
    }

    /** A custom source holding its data as a key-value map. */
    constructor KeyValue(entries: map<string, string>)
      ensures Wf() && kind == KeyValueKind && children == [] && data == entries && bindings == []
    {
      kind := KeyValueKind;
      children := [];
      data := entries;
      bindings := [];
      depth := 0;
      Below := {};
    }

    /** `new Combinator(...sources)`. */
    constructor Combinator(sources: seq<Source>)
      requires forall s | s in sources :: s.Wf()
      ensures Wf() && kind == CombinatorKind && children == sources && data == map[] && bindings == []
    {
      kind := CombinatorKind;
      children := sources;
      data := map[];
      bindings := [];
      depth := 1 + MaxDepth(sources);
      Below := BelowAll(sources);
    }

    /** `_get`: what the source answers for a key; `None` stands for both
        `null` and `undefined`. */
    function Lookup(name: string): Option<string>
      requires Wf()
      reads this`data, Below`data
      decreases depth, 1
    {
      match kind
      case EnvironmentKind => EnvironmentValue(data, name)
      case KeyValueKind => if name in data then Some(data[name]) else None
      case CombinatorKind => FirstPresent(Answers(name, |children|))
    }

    /** The answers of the first `n` children of a combinator. */
    function Answers(name: string, n: nat): (r: seq<Option<string>>)
      requires Wf() && n <= |children|
      reads Below`data
      ensures |r| == n
      ensures forall k :: 0 <= k < n ==> r[k] == children[k].Lookup(name)
      decreases depth, 0, n
    {
      if n == 0 then [] else Answers(name, n - 1) + [children[n - 1].Lookup(name)]
    }

    /** A combinator answers with its first child that has the key, and has
        no answer when no child has one. */
    lemma CombinatorLookup(name: string)
      requires Wf() && kind == CombinatorKind
      ensures forall i :: 0 <= i < |children| && children[i].Lookup(name).Some? &&
                (forall k :: 0 <= k < i ==> children[k].Lookup(name).None?)
                ==> Lookup(name) == children[i].Lookup(name)
      ensures Lookup(name).None? <==> forall k :: 0 <= k < |children| ==> children[k].Lookup(name).None?
    {
      var answers := Answers(name, |children|);
      forall i | 0 <= i < |children| && children[i].Lookup(name).Some? &&
                 (forall k :: 0 <= k < i ==> children[k].Lookup(name).None?)
        ensures Lookup(name) == children[i].Lookup(name)
      {
        FirstPresentHit(answers, i);
      }
      FirstPresentAbsent(answers);
    }

    /** `_get` in its loop form: a combinator asks its children in
        order and returns at the first answer. */
    method Get(name: string) returns (r: Option<string>)
      requires Wf()
      ensures r == Lookup(name)
      decreases depth
    {
      match kind {
        case EnvironmentKind =>
          r := if name in data && data[name] != "" then Some(data[name]) else None;
        case KeyValueKind =>
          r := if name in data then Some(data[name]) else None;
        case CombinatorKind =>
          ghost var answers := Answers(name, |children|);
          var i := 0;
          while i < |children|
            invariant 0 <= i <= |children|
            invariant forall k :: 0 <= k < i ==> answers[k].None?
          {
            var answer := children[i].Get(name);
            if answer.Some? {
              FirstPresentHit(answers, i);
              return answer;
            }
            i := i + 1;
          }
          FirstPresentAbsent(answers);
          r := None;
      }
    }

    /** What populate knows about a property of an object with the given
        prefix: its flat key, its flag, its `map` and the source's answer. */
    ghost function SlotOf(prefix: string, p: Property): Slot
      requires Wf()
      reads p`key, this`data, Below`data
    {
      var k := LookupKey(prefix, p.Name());
      Slot(k, p.required, p.parse, Lookup(k))
    }

    ghost function SlotsOf(prefix: string, ps: seq<Property>): (r: seq<Slot>)
      requires Wf()
      reads ps`key, this`data, Below`data
      ensures |r| == |ps|
      decreases |ps|
    {
      if ps == [] then [] else SlotsOf(prefix, ps[..|ps| - 1]) + [SlotOf(prefix, ps[|ps| - 1])]
    }

    /** Slot `i` of a property list is the slot of its property `i`. */
    lemma {:induction false} SlotsOfAt(prefix: string, ps: seq<Property>, i: nat)
      requires Wf() && i < |ps|
      ensures SlotsOf(prefix, ps)[i] == SlotOf(prefix, ps[i])
      decreases |ps|
    {
      if i < |ps| - 1 {
        SlotsOfAt(prefix, ps[..|ps| - 1], i);
      }
    }

    /** The slots of one property list are coherent: one cell, one slot. */
    lemma SlotsCoherent(prefix: string, ps: seq<Property>)
      requires Wf()
      ensures Coherent(ps, SlotsOf(prefix, ps))
    {
      forall i | 0 <= i < |ps| ensures SlotsOf(prefix, ps)[i] == SlotOf(prefix, ps[i]) {
        SlotsOfAt(prefix, ps, i);
      }
    }

    /** With properties whose `map` is their type's, every populate failure
        is an illegal value or a missing-properties error, and parse failures
        are always illegal values. */
    lemma SlotsFailIllegal(prefix: string, ps: seq<Property>)
      requires Wf()
      requires forall p | p in ps :: p.Valid()
      ensures ParseErrorsIllegal(SlotsOf(prefix, ps))
      ensures PopulateOutcome(SlotsOf(prefix, ps)).Fail? ==>
                PopulateOutcome(SlotsOf(prefix, ps)).error.IllegalPropertyValue? ||
                PopulateOutcome(SlotsOf(prefix, ps)).error.MissingProperties?
    {
      var slots := SlotsOf(prefix, ps);
      forall k | 0 <= k < |slots| && ParseFails(slots[k])
        ensures slots[k].parse(slots[k].found.value).error.IllegalPropertyValue?
      {
        SlotsOfAt(prefix, ps, k);
        ps[k].ParseFailureIsIllegal(slots[k].found.value);
      }
    }

    /** notifyUpdate's view of the bound objects. */
    ghost function Jobs(bs: seq<(ConfObject, seq<Property>)>): (r: seq<Job<Property>>)
      requires Wf()
      reads AllProps(bs)`key, this`data, Below`data
      ensures |r| == |bs| && JobsWf(r)
      decreases |bs|
    {
      if bs == [] then []
      else
        var last := bs[|bs| - 1];
        var earlier := AllProps(bs[..|bs| - 1]);
        assert AllProps(bs) == earlier + last.1;
        assert forall k | 0 <= k < |earlier| :: earlier[k] in AllProps(bs);
        assert forall k | 0 <= k < |last.1| :: last.1[k] in AllProps(bs);
        Jobs(bs[..|bs| - 1]) + [Job(last.1, SlotsOf(last.0.Prefix(), last.1))]
    }

    /** Job `k` holds the properties of binding `k` and their slots. */
    lemma {:induction false} JobsAt(bs: seq<(ConfObject, seq<Property>)>, k: nat)
      requires Wf() && k < |bs|
      ensures Jobs(bs)[k] == Job(bs[k].1, SlotsOf(bs[k].0.Prefix(), bs[k].1))
      decreases |bs|
    {
      if k < |bs| - 1 {
        JobsAt(bs[..|bs| - 1], k);
      }
    }

    /** `populate`: one pass over the properties that writes each value the
        source has, collects the absent required keys, and aborts at the
        first value that does not parse. */
    method Populate(obj: ConfObject, props: seq<Property>) returns (o: Outcome<ConfError>)
      requires Wf()
      modifies props`value
      ensures o == PopulateOutcome(old(SlotsOf(obj.Prefix(), props)))
      ensures ValuesOf(props) == Populated(props, old(SlotsOf(obj.Prefix(), props)), old(ValuesOf(props)))
      ensures SlotsOf(obj.Prefix(), props) == old(SlotsOf(obj.Prefix(), props))
    {
      ghost var slots := SlotsOf(obj.Prefix(), props);
      ghost var store := ValuesOf(props);
      var missing: seq<string> := [];
      var i := 0;
      while i < |props|
        invariant 0 <= i <= |props|
        invariant PassedFirst(props, slots, i, missing, ValuesOf(props), store)
        invariant slots == SlotsOf(obj.Prefix(), props)
      {
        SlotsOfAt(obj.Prefix(), props, i);
        ghost var cur := ValuesOf(props);
        var name, found, u := Visit(obj, props[i], slots[i], props);
        if u.Fail? {
          PassedToFailure(props, slots, i, missing, cur, store);
          return u;
        }
        PassedNext(props, slots, i, missing, cur, store);
        ghost var next := missing + (if Absent(slots, i) then [Quoted(slots[i].key)] else []);
        if found.None? && props[i].required {
          missing := missing + [Quoted(name)];
        }
        assert missing == next;
        i := i + 1;
      }
      PassedAll(props, slots, missing, ValuesOf(props), store);
      if |missing| > 0 {
        return Fail(MissingProperties(missing));
      }
      return Pass;
    }

    /** One step of populate: look the property's key up and, when the
        source has a value, update the property with it. */
    method Visit(obj: ConfObject, p: Property, ghost slot: Slot, ghost ps: seq<Property>)
        returns (name: string, found: Option<string>, u: Outcome<ConfError>)
      requires Wf() && slot == SlotOf(obj.Prefix(), p) && p in ps
      modifies p`value
      ensures SlotsOf(obj.Prefix(), ps) == old(SlotsOf(obj.Prefix(), ps))
      ensures ValuesOf(ps) == Step(old(ValuesOf(ps)), p, slot)
      ensures name == slot.key && found == slot.found && p.required == slot.required
      ensures u == if ParseFails(slot) then Fail(slot.parse(slot.found.value).error) else Pass
      ensures p.value == if found.Some? && slot.parse(found.value).Success? then Some(slot.parse(found.value).value) else old(p.value)
    {
      var env := obj.environment;
      name := (if env.None? then "" else env.value) + p.Name();
      found := Get(name);
      u := Deliver(p, found, slot, ps);
    }

    /** `bind`: an object bound before is left alone. Otherwise each field
        that passes the filter and holds a property reports its name to the
        property, the properties are populated, and the object is registered
        only when that succeeds. */
    method Bind(obj: ConfObject) returns (o: Outcome<ConfError>)
      requires Wf()
      requires forall p | p in obj.Properties() :: allocated(p)
      modifies this`bindings, obj.Properties()`key, obj.Properties()`value
      ensures Bound(old(bindings), obj) ==>
                && o == Pass && bindings == old(bindings)
                && forall p | p in obj.Properties() :: p.key == old(p.key) && p.value == old(p.value)
      ensures !Bound(old(bindings), obj) ==>
                && (forall p | p in obj.Properties() :: p.key == if old(p.key).Some? then old(p.key) else FirstName<Property>(obj.fields, obj.keep, p))
                && o == PopulateOutcome(SlotsOf(obj.Prefix(), obj.Properties()))
                && ValuesOf(obj.Properties()) == Populated(obj.Properties(), SlotsOf(obj.Prefix(), obj.Properties()), old(ValuesOf(obj.Properties())))
                && bindings == if o.Pass? then old(bindings) + [(obj, obj.Properties())] else old(bindings)
    {
      if Bound(bindings, obj) {
        return Pass;
      }
      var props;
      o, props := Attach(obj);
      if o.Pass? {
        Register(obj, props);
      }
    }

    /** The first binding of an object: discover its properties and populate
        them. */
    method Attach(obj: ConfObject) returns (o: Outcome<ConfError>, props: seq<Property>)
      requires Wf()
      requires forall p | p in obj.Properties() :: allocated(p)
      modifies obj.Properties()`key, obj.Properties()`value
      ensures props == obj.Properties()
      ensures forall p | p in props :: p.key == if old(p.key).Some? then old(p.key) else FirstName<Property>(obj.fields, obj.keep, p)
      ensures o == PopulateOutcome(SlotsOf(obj.Prefix(), props))
      ensures ValuesOf(props) == Populated(props, SlotsOf(obj.Prefix(), props), old(ValuesOf(props)))
    {
      ghost var initial := ValuesOf(obj.Properties());
      props := Discover(obj);
      ghost var slots := SlotsOf(obj.Prefix(), props);
      o := Populate(obj, props);
      assert ValuesOf(props) == Populated(props, slots, initial);
    }

    /** `_confEagerMapping.set(obj, props)`: nothing but the bindings changes. */
    method Register(obj: ConfObject, props: seq<Property>)
      requires Wf()
      modifies this`bindings
      ensures bindings == old(bindings) + [(obj, props)]
      ensures SlotsOf(obj.Prefix(), props) == old(SlotsOf(obj.Prefix(), props))
      ensures ValuesOf(props) == old(ValuesOf(props))
    {
      bindings := bindings + [(obj, props)];
    }

    /** `notifyUpdate`: populate every bound object again, in the order they
        were bound, until the first one fails. The bindings do not change. */
    method NotifyUpdate() returns (o: Outcome<ConfError>)
      requires Wf()
      modifies AllProps(bindings)`value
      ensures bindings == old(bindings)
      ensures (o, ValuesOf(AllProps(bindings))) == RunAll(old(Jobs(bindings)), old(ValuesOf(AllProps(bindings))))
    {
      ghost var all := AllProps(bindings);
      ghost var jobs := Jobs(bindings);
      ghost var store := ValuesOf(all);
      var i := 0;
      while i < |bindings|
        invariant 0 <= i <= |bindings|
        invariant Jobs(bindings) == jobs
        invariant RunAll(jobs, store) == RunAll(jobs[i..], ValuesOf(all))
      {
        var (obj, props) := bindings[i];
        AllPropsContains(bindings, i);
        JobsAt(bindings, i);
        assert jobs[i] == Job(props, SlotsOf(obj.Prefix(), props));
        assert jobs[i..][0] == jobs[i] && jobs[i..][1..] == jobs[i + 1..];
        var r := Repopulate(obj, props, all);
        if r.Fail? {
          return r;
        }
        i := i + 1;
      }
      o := Pass;
    }

    /** One object of `notifyUpdate`: populating its properties changes the
        values of all bound properties as the populated store of their old
        values, since the other bound properties keep theirs. */
    method Repopulate(obj: ConfObject, props: seq<Property>, ghost all: seq<Property>) returns (o: Outcome<ConfError>)
      requires Wf()
      requires all == AllProps(bindings) && forall p | p in props :: p in all
      modifies all`value
      ensures o == PopulateOutcome(old(SlotsOf(obj.Prefix(), props)))
      ensures ValuesOf(all) == Populated(props, old(SlotsOf(obj.Prefix(), props)), old(ValuesOf(all)))
      ensures Jobs(bindings) == old(Jobs(bindings))
    {
      assert forall p | p in all :: allocated(p);
      ghost var s := ValuesOf(all);
      ghost var t := ValuesOf(props);
      assert forall k | 0 <= k < |props| :: props[k] in all;
      o := Populate(obj, props);
      ValuesOfLift(all, props, old(SlotsOf(obj.Prefix(), props)), s, t);
      JobsFrame(bindings);
    }

    /** The slots of every bound object depend only on the names of its
        properties and on what the sources hold. */
    twostate lemma JobsFrame(bs: seq<(ConfObject, seq<Property>)>)
      requires Wf()
      requires forall p | p in AllProps(bs) :: old(allocated(p)) && p.key == old(p.key)
      requires data == old(data) && forall c | c in Below :: c.data == old(c.data)
      ensures Jobs(bs) == old(Jobs(bs))
    {
    }
  }

  /** The discovery half of `bind`: every field that passes the filter and
      holds a property reports its name to the property, which keeps the
      first name it is told; the properties are listed in field order. */
  method Discover(obj: ConfObject) returns (props: seq<Property>)
    requires forall p | p in obj.Properties() :: allocated(p)
    modifies obj.Properties()`key
    ensures props == obj.Properties()
    ensures forall p | p in props :: p.key == if old(p.key).Some? then old(p.key) else FirstName<Property>(obj.fields, obj.keep, p)
    ensures ValuesOf(props) == old(ValuesOf(obj.Properties()))
  {
    ghost var all := obj.Properties();
    props := [];
    var i := 0;
    while i < |obj.fields|
      invariant 0 <= i <= |obj.fields|
      invariant props == Collect<Property>(obj.fields[..i], obj.keep)
      invariant forall p | p in all ::
                  p.key == if old(p.key).Some? then old(p.key) else FirstName<Property>(obj.fields[..i], obj.keep, p)
    {
      var (name, field) := obj.fields[i];
      assert obj.fields[..i + 1][..i] == obj.fields[..i];
      ghost var keys := map p | p in all :: p.key;
      if obj.keep(name) && field.Some? {
        CollectHas(obj.fields, obj.keep, i);
        field.value.SetFieldName(name);
        props := props + [field.value];
      }
      forall p | p in all
        ensures p.key == if old(p.key).Some? then old(p.key) else FirstName<Property>(obj.fields[..i + 1], obj.keep, p)
      {
        FirstNameNext(obj.fields, obj.keep, i, p, old(p.key), keys[p], p.key);
      }
      i := i + 1;
    }
    assert obj.fields[..|obj.fields|] == obj.fields;
  }

  /** A name as told after one more field: a property named before keeps
      its name, and one not yet named takes that of the field if the field
      is included and holds it. */
  lemma FirstNameNext(fields: seq<(string, Option<Property>)>, keep: string -> bool, i: nat, p: Property,
                      initial: Option<string>, before: Option<string>, after: Option<string>)
    requires i < |fields|
    requires before == if initial.Some? then initial else FirstName<Property>(fields[..i], keep, p)
    requires after == if keep(fields[i].0) && fields[i].1 == Some(p) && before.None? then Some(fields[i].0) else before
    ensures after == if initial.Some? then initial else FirstName<Property>(fields[..i + 1], keep, p)
  {
    FirstNameSnoc(fields[..i], fields[i], keep, p);
    assert fields[..i] + [fields[i]] == fields[..i + 1];
  }

  /** Reporting one more field extends the first-name search by that field. */
  lemma {:induction false} FirstNameSnoc(fields: seq<(string, Option<Property>)>, f: (string, Option<Property>),
                                         keep: string -> bool, p: Property)
    ensures FirstName<Property>(fields + [f], keep, p) ==
              if FirstName<Property>(fields, keep, p).Some? then FirstName<Property>(fields, keep, p)
              else if keep(f.0) && f.1 == Some(p) then Some(f.0) else None
    decreases |fields|
  {
    if fields == [] {
      assert [] + [f] == [f];
      assert [f][1..] == [];
    } else {
      assert (fields + [f])[1..] == fields[1..] + [f];
      FirstNameSnoc(fields[1..], f, keep, p);
    }
  }

  ghost function MaxDepth(sources: seq<Source>): (r: nat)
    ensures forall s | s in sources :: s.depth <= r
    decreases |sources|
  {
    if sources == [] then 0
    else
      var d := MaxDepth(sources[1..]);
      if sources[0].depth > d then sources[0].depth else d
  }

  ghost function BelowAll(sources: seq<Source>): (r: set<Source>)
    ensures forall s | s in sources :: s in r && s.Below <= r
    decreases |sources|
  {
    if sources == [] then {} else {sources[0]} + sources[0].Below + BelowAll(sources[1..])
  }
}
