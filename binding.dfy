/** What populating a configuration object means, stated on values: one
    pass over its properties that writes every parsed value, collects the
    keys of the required properties that are absent, and aborts at the first
    value that does not parse. The source methods are proved against these
    functions. The engine is generic in the type `P` of property cells, and
    keeps their values in a store, so one cell reached through two fields or
    two objects is a single entry. */
module Binding {
  import opened Wrappers
  import opened Errors
  import opened Mappers

  // ------------------------------------------------------------ discovery

  /** The property cells of an object's fields, in field order: the fields
      that pass the object's filter and hold a property. */
  function Collect<P(==)>(fields: seq<(string, Option<P>)>, keep: string -> bool): seq<P>
    decreases |fields|
  {
    if fields == [] then []
    else
      var last := fields[|fields| - 1];
      Collect(fields[..|fields| - 1], keep) + (if keep(last.0) && last.1.Some? then [last.1.value] else [])
  }

  predicate Includes<P(==)>(fields: seq<(string, Option<P>)>, keep: string -> bool, i: int, p: P) {
    0 <= i < |fields| && keep(fields[i].0) && fields[i].1 == Some(p)
  }

  /** A cell is collected exactly when some included field holds it, and the
      collected list is never longer than the field list. */
  lemma {:induction false} CollectSpec<P>(fields: seq<(string, Option<P>)>, keep: string -> bool)
    ensures |Collect(fields, keep)| <= |fields|
    ensures forall p :: p in Collect(fields, keep) <==> exists i :: Includes(fields, keep, i, p)
    decreases |fields|
  {
    if fields != [] {
      var init := fields[..|fields| - 1];
      CollectSpec(init, keep);
      forall p | p in Collect(fields, keep) ensures exists i :: Includes(fields, keep, i, p) {
        if p in Collect(init, keep) {
          var i :| Includes(init, keep, i, p);
          assert Includes(fields, keep, i, p);
        } else {
          assert Includes(fields, keep, |fields| - 1, p);
        }
      }
      forall p | exists i :: Includes(fields, keep, i, p) ensures p in Collect(fields, keep) {
        var i :| Includes(fields, keep, i, p);
        if i < |init| {
          assert Includes(init, keep, i, p);
        }
      }
    }
  }

  /** The cell of an included field is collected. */
  lemma CollectHas<P>(fields: seq<(string, Option<P>)>, keep: string -> bool, i: nat)
    requires i < |fields| && keep(fields[i].0) && fields[i].1.Some?
    ensures fields[i].1.value in Collect(fields, keep)
  {
    CollectSpec(fields, keep);
    assert Includes(fields, keep, i, fields[i].1.value);
  }

  /** Collection keeps field order: the fields of two consecutive parts of an
      object are collected part after part. */
  lemma {:induction false} CollectAppend<P>(a: seq<(string, Option<P>)>, b: seq<(string, Option<P>)>, keep: string -> bool)
    ensures Collect(a + b, keep) == Collect(a, keep) + Collect(b, keep)
    decreases |b|
  {
    if b == [] {
      assert a + b == a;
    } else {
      assert (a + b)[..|a + b| - 1] == a + b[..|b| - 1];
      CollectAppend(a, b[..|b| - 1], keep);
    }
  }

  /** The name reported to a cell during discovery: that of the first
      included field holding it. */
  function FirstName<P(==)>(fields: seq<(string, Option<P>)>, keep: string -> bool, p: P): Option<string>
    decreases |fields|
  {
    if fields == [] then None
    else if keep(fields[0].0) && fields[0].1 == Some(p) then Some(fields[0].0)
    else FirstName(fields[1..], keep, p)
  }

  /** A collected cell is told the name of the first included field holding
      it, and only collected cells are told a name at all. */
  lemma {:induction false} FirstNameSpec<P>(fields: seq<(string, Option<P>)>, keep: string -> bool, p: P)
    ensures FirstName(fields, keep, p).Some? <==> exists i :: Includes(fields, keep, i, p)
    ensures forall i :: Includes(fields, keep, i, p) && (forall j :: 0 <= j < i ==> !Includes(fields, keep, j, p))
              ==> FirstName(fields, keep, p) == Some(fields[i].0)
    decreases |fields|
  {
    if fields != [] {
      FirstNameSpec(fields[1..], keep, p);
      if !Includes(fields, keep, 0, p) {
        forall i | 0 < i < |fields| ensures Includes(fields, keep, i, p) == Includes(fields[1..], keep, i - 1, p) { }
        if FirstName(fields, keep, p).Some? {
          var i :| Includes(fields[1..], keep, i, p);
          assert Includes(fields, keep, i + 1, p);
        }
        forall i | Includes(fields, keep, i, p) && (forall j :: 0 <= j < i ==> !Includes(fields, keep, j, p))
          ensures FirstName(fields, keep, p) == Some(fields[i].0)
        {
          assert forall j :: 0 <= j < i - 1 ==> !Includes(fields[1..], keep, j, p) by {
            forall j | 0 <= j < i - 1 ensures !Includes(fields[1..], keep, j, p) {
              assert !Includes(fields, keep, j + 1, p);
            }
          }
        }
      }
    }
  }

  // ------------------------------------------------------------- one pass

  /** What populate knows about one property: the key it looks up, whether
      it is required, its `map`, and what the source answered. */
  datatype Slot = Slot(key: string, required: bool, parse: string -> Result<Value, ConfError>, found: Option<string>)

  /** The source has a value for the slot and the value does not parse. */
  predicate ParseFails(s: Slot) {
    s.found.Some? && s.parse(s.found.value).Failure?
  }

  /** Parse failures are illegal-value errors, as every mapper's are. */
  predicate ParseErrorsIllegal(slots: seq<Slot>) {
    forall k :: 0 <= k < |slots| && ParseFails(slots[k]) ==> slots[k].parse(slots[k].found.value).error.IllegalPropertyValue?
  }

  /** The index of the first slot whose value does not parse, or the number
      of slots when all parse: how far populate gets. */
  function Stop(slots: seq<Slot>): (n: nat)
    ensures n <= |slots|
    ensures n < |slots| ==> ParseFails(slots[n])
    decreases |slots|
  {
    if slots == [] then 0
    else if ParseFails(slots[0]) then 0
    else 1 + Stop(slots[1..])
  }

  /** Populate gets past every slot before the stop, and stops at a slot
      that fails to parse (when it does not reach the end). */
  lemma {:induction false} StopSpec(slots: seq<Slot>)
    ensures forall k :: 0 <= k < Stop(slots) ==> !ParseFails(slots[k])
    decreases |slots|
  {
    if slots != [] && !ParseFails(slots[0]) {
      StopSpec(slots[1..]);
      forall k | 0 < k < Stop(slots) ensures slots[k] == slots[1..][k - 1] { }
    }
  }

  /** The stop is the first failing slot: a slot that fails after slots that
      all parse. */
  lemma {:induction false} StopAt(slots: seq<Slot>, i: nat)
    requires i <= |slots|
    requires forall k :: 0 <= k < i ==> !ParseFails(slots[k])
    requires i < |slots| ==> ParseFails(slots[i])
    ensures Stop(slots) == i
    decreases i
  {
    if i > 0 {
      StopAt(slots[1..], i - 1);
    }
  }

  /** How a key is written in the missing-properties list. */
  function Quoted(key: string): string {
    "`" + key + "`"
  }

  /** The quoted keys of the required slots the source has no value for, in
      slot order. */
  function Missing(slots: seq<Slot>): seq<string>
    decreases |slots|
  {
    if slots == [] then []
    else
      var last := slots[|slots| - 1];
      Missing(slots[..|slots| - 1]) + (if last.required && last.found.None? then [Quoted(last.key)] else [])
  }

  predicate Absent(slots: seq<Slot>, i: int) {
    0 <= i < |slots| && slots[i].required && slots[i].found.None?
  }

  /** A name is missing exactly when it is the quoted key of a required slot
      without a value; optional slots are never listed. */
  lemma {:induction false} MissingSpec(slots: seq<Slot>)
    ensures |Missing(slots)| <= |slots|
    ensures forall x :: x in Missing(slots) <==> exists i :: Absent(slots, i) && x == Quoted(slots[i].key)
    decreases |slots|
  {
    if slots != [] {
      var init := slots[..|slots| - 1];
      MissingSpec(init);
      forall x | x in Missing(slots) ensures exists i :: Absent(slots, i) && x == Quoted(slots[i].key) {
        if x in Missing(init) {
          var i :| Absent(init, i) && x == Quoted(init[i].key);
          assert Absent(slots, i);
        } else {
          assert Absent(slots, |slots| - 1);
        }
      }
      forall x | exists i :: Absent(slots, i) && x == Quoted(slots[i].key) ensures x in Missing(slots) {
        var i :| Absent(slots, i) && x == Quoted(slots[i].key);
        if i < |init| {
          assert Absent(init, i);
        }
      }
    }
  }

  /** The list keeps property order: the slots of two consecutive parts of
      a pass are listed part after part. */
  lemma {:induction false} MissingAppend(a: seq<Slot>, b: seq<Slot>)
    ensures Missing(a + b) == Missing(a) + Missing(b)
    decreases |b|
  {
    if b == [] {
      assert a + b == a;
    } else {
      assert (a + b)[..|a + b| - 1] == a + b[..|b| - 1];
      MissingAppend(a, b[..|b| - 1]);
    }
  }

  /** How populate ends: the parse error of the first value that does not
      parse; otherwise, after the full pass, one missing-properties failure
      when the list is not empty; otherwise success. */
  function PopulateOutcome(slots: seq<Slot>): Outcome<ConfError> {
    var n := Stop(slots);
    if n < |slots| then Fail(slots[n].parse(slots[n].found.value).error)
    else if Missing(slots) != [] then Fail(MissingProperties(Missing(slots)))
    else Pass
  }

  /** Populate succeeds exactly when every value the source has parses and
      every required property has a value. */
  lemma OutcomePass(slots: seq<Slot>)
    ensures PopulateOutcome(slots).Pass? <==>
              && (forall k :: 0 <= k < |slots| ==> !ParseFails(slots[k]))
              && (forall k :: 0 <= k < |slots| ==> !Absent(slots, k))
  {
    StopSpec(slots);
    MissingSpec(slots);
    if PopulateOutcome(slots).Pass? {
      StopAt(slots, Stop(slots));
      forall k | 0 <= k < |slots| && Absent(slots, k) ensures Quoted(slots[k].key) in Missing(slots) { }
    } else if forall k :: 0 <= k < |slots| ==> !ParseFails(slots[k]) {
      StopAt(slots, |slots|);
      var x := Missing(slots)[0];
      assert x in Missing(slots);
    }
  }

  /** A value that does not parse aborts the pass: the failure is that
      value's own illegal-value error, whatever is missing, and it comes from
      the first such value. */
  lemma OutcomeParseFailure(slots: seq<Slot>, i: nat)
    requires i < |slots| && ParseFails(slots[i])
    requires forall k :: 0 <= k < i ==> !ParseFails(slots[k])
    ensures PopulateOutcome(slots) == Fail(slots[i].parse(slots[i].found.value).error)
    ensures ParseErrorsIllegal(slots) ==> PopulateOutcome(slots).error.IllegalPropertyValue?
  {
    StopAt(slots, i);
  }

  /** The missing-properties failure is raised once, after the full pass:
      only when every value parsed, and then listing every absent required
      key. */
  lemma OutcomeMissing(slots: seq<Slot>)
    requires ParseErrorsIllegal(slots)
    ensures PopulateOutcome(slots).Fail? && PopulateOutcome(slots).error.MissingProperties? <==>
              && (forall k :: 0 <= k < |slots| ==> !ParseFails(slots[k]))
              && Missing(slots) != []
    ensures PopulateOutcome(slots).Fail? && PopulateOutcome(slots).error.MissingProperties? ==>
              PopulateOutcome(slots).error.properties == Missing(slots)
  {
    StopSpec(slots);
    if forall k :: 0 <= k < |slots| ==> !ParseFails(slots[k]) {
      StopAt(slots, |slots|);
    } else {
      var i :| 0 <= i < |slots| && ParseFails(slots[i]);
      assert Stop(slots) < |slots|;
    }
  }

  // ---------------------------------------------------------------- store

  /** The values of the property cells. */
  type Store<P(==)> = map<P, Option<Value>>

  /** One step of the pass: a value the source has and that parses is
      written to the cell; anything else leaves the store as it is. */
  function Step<P(==)>(store: Store<P>, p: P, s: Slot): Store<P> {
    match s.found
    case None => store
    case Some(raw) =>
      match s.parse(raw)
      case Success(v) => store[p := Some(v)]
      case Failure(_) => store
  }

  /** A step writes at most the cell of its own property. */
  lemma StepWritesOne<P>(store: Store<P>, p: P, s: Slot)
    requires p in store
    ensures forall q :: q in Step(store, p, s) <==> q in store
    ensures forall q | q in store && q != p :: Step(store, p, s)[q] == store[q]
  {
  }

  /** The store after the first `n` steps of a pass; a store that has a cell
      for every property gains no cell. */
  function StoreAfter<P(==)>(ps: seq<P>, slots: seq<Slot>, n: nat, store: Store<P>): (r: Store<P>)
    requires |ps| == |slots| && n <= |ps|
    ensures (forall k :: 0 <= k < |ps| ==> ps[k] in store) ==> r.Keys == store.Keys
    decreases n
  {
    if n == 0 then store
    else Step(StoreAfter(ps, slots, n - 1, store), ps[n - 1], slots[n - 1])
  }

  /** The store after populate: every step up to the stop. */
  function Populated<P(==)>(ps: seq<P>, slots: seq<Slot>, store: Store<P>): Store<P>
    requires |ps| == |slots|
  {
    StoreAfter(ps, slots, Stop(slots), store)
  }

  /** Populate has gone through the first `i` slots without a parse failure:
      `missing` lists the absent required keys among them and `cur` is the
      store after them. */
  ghost predicate PassedFirst<P>(ps: seq<P>, slots: seq<Slot>, i: nat, missing: seq<string>, cur: Store<P>, store: Store<P>) {
    && |ps| == |slots| && i <= |slots|
    && missing == Missing(slots[..i])
    && (forall k :: 0 <= k < i ==> !ParseFails(slots[k]))
    && cur == StoreAfter(ps, slots, i, store)
  }

  /** A slot whose value parses, or that has none, is passed: its key joins
      the missing list when it is required and absent, and its step is taken. */
  lemma PassedNext<P>(ps: seq<P>, slots: seq<Slot>, i: nat, missing: seq<string>, cur: Store<P>, store: Store<P>)
    requires PassedFirst(ps, slots, i, missing, cur, store) && i < |slots| && !ParseFails(slots[i])
    ensures PassedFirst(ps, slots, i + 1, missing + (if Absent(slots, i) then [Quoted(slots[i].key)] else []),
                        Step(cur, ps[i], slots[i]), store)
  {
    assert slots[..i + 1][..i] == slots[..i];
  }

  /** A pass that reaches a slot whose value does not parse ends there, with
      that slot's error and the store as it is. */
  lemma PassedToFailure<P>(ps: seq<P>, slots: seq<Slot>, i: nat, missing: seq<string>, cur: Store<P>, store: Store<P>)
    requires PassedFirst(ps, slots, i, missing, cur, store) && i < |slots| && ParseFails(slots[i])
    ensures PopulateOutcome(slots) == Fail(slots[i].parse(slots[i].found.value).error)
    ensures Populated(ps, slots, store) == cur
  {
    StopAt(slots, i);
  }

  /** A pass through every slot ends with the missing list, failing when it
      is not empty, and has written the whole store. */
  lemma PassedAll<P>(ps: seq<P>, slots: seq<Slot>, missing: seq<string>, cur: Store<P>, store: Store<P>)
    requires PassedFirst(ps, slots, |slots|, missing, cur, store)
    ensures PopulateOutcome(slots) == if missing == [] then Pass else Fail(MissingProperties(missing))
    ensures Populated(ps, slots, store) == cur
  {
    StopAt(slots, |slots|);
    assert slots[..|slots|] == slots;
  }

  /** Every occurrence of one cell has the same slot, as when the slot is
      computed from the cell. */
  ghost predicate Coherent<P>(ps: seq<P>, slots: seq<Slot>) {
    |ps| == |slots| && forall i, j :: 0 <= i < |ps| && 0 <= j < |ps| && ps[i] == ps[j] ==> slots[i] == slots[j]
  }

  predicate WrittenBy<P(==)>(ps: seq<P>, slots: seq<Slot>, n: nat, i: int)
    requires |ps| == |slots|
  {
    0 <= i < n <= |ps| && slots[i].found.Some? && slots[i].parse(slots[i].found.value).Success?
  }

  /** A cell with a parsing value among the first `n` steps holds that value. */
  lemma {:induction false} StoreAfterWritten<P>(ps: seq<P>, slots: seq<Slot>, n: nat, store: Store<P>)
    requires Coherent(ps, slots) && n <= |ps|
    requires forall k :: 0 <= k < |ps| ==> ps[k] in store
    ensures forall i :: WrittenBy(ps, slots, n, i) ==>
              StoreAfter(ps, slots, n, store)[ps[i]] == Some(slots[i].parse(slots[i].found.value).value)
    decreases n
  {
    if n > 0 {
      StoreAfterWritten(ps, slots, n - 1, store);
      var before := StoreAfter(ps, slots, n - 1, store);
      var after := StoreAfter(ps, slots, n, store);
      assert after == Step(before, ps[n - 1], slots[n - 1]);
      forall i | WrittenBy(ps, slots, n, i)
        ensures after[ps[i]] == Some(slots[i].parse(slots[i].found.value).value)
      {
        if i < n - 1 && ps[i] == ps[n - 1] {
          assert slots[i] == slots[n - 1];
        } else if i < n - 1 {
          assert WrittenBy(ps, slots, n - 1, i);
        }
      }
    }
  }

  /** A cell no step among the first `n` writes keeps its value. */
  lemma {:induction false} StoreAfterKept<P>(ps: seq<P>, slots: seq<Slot>, n: nat, store: Store<P>)
    requires |ps| == |slots| && n <= |ps|
    requires forall k :: 0 <= k < |ps| ==> ps[k] in store
    ensures forall p :: p in store && (forall i :: WrittenBy(ps, slots, n, i) ==> ps[i] != p) ==>
              StoreAfter(ps, slots, n, store)[p] == store[p]
    decreases n
  {
    if n > 0 {
      StoreAfterKept(ps, slots, n - 1, store);
      var before := StoreAfter(ps, slots, n - 1, store);
      var after := StoreAfter(ps, slots, n, store);
      assert after == Step(before, ps[n - 1], slots[n - 1]);
      forall p | p in store && (forall i :: WrittenBy(ps, slots, n, i) ==> ps[i] != p)
        ensures after[p] == store[p]
      {
        forall i | WrittenBy(ps, slots, n - 1, i) ensures ps[i] != p {
          assert WrittenBy(ps, slots, n, i);
        }
        if ps[n - 1] == p {
          assert !WrittenBy(ps, slots, n, n - 1);
        }
      }
    }
  }

  /** The first `n` steps write each cell that has a parsing value among them
      with that value, leave every other cell as it was, and add no cell. */
  lemma StoreAfterSpec<P>(ps: seq<P>, slots: seq<Slot>, n: nat, store: Store<P>)
    requires Coherent(ps, slots) && n <= |ps|
    requires forall k :: 0 <= k < |ps| ==> ps[k] in store
    ensures StoreAfter(ps, slots, n, store).Keys == store.Keys
    ensures forall i :: WrittenBy(ps, slots, n, i) ==>
              StoreAfter(ps, slots, n, store)[ps[i]] == Some(slots[i].parse(slots[i].found.value).value)
    ensures forall p :: p in store && (forall i :: WrittenBy(ps, slots, n, i) ==> ps[i] != p) ==>
              StoreAfter(ps, slots, n, store)[p] == store[p]
  {
    StoreAfterWritten(ps, slots, n, store);
    StoreAfterKept(ps, slots, n, store);
  }

  /** What survives populate: the cells before the stop that the source has
      a value for hold that value parsed; every other cell, the cells after
      the stop and the absent optional ones among them, keeps its value. */
  lemma PopulatedSpec<P>(ps: seq<P>, slots: seq<Slot>, store: Store<P>)
    requires Coherent(ps, slots)
    requires forall k :: 0 <= k < |ps| ==> ps[k] in store
    ensures Populated(ps, slots, store).Keys == store.Keys
    ensures forall i :: 0 <= i < Stop(slots) && slots[i].found.Some? && slots[i].parse(slots[i].found.value).Success? ==>
              Populated(ps, slots, store)[ps[i]] == Some(slots[i].parse(slots[i].found.value).value)
    ensures forall p :: p in store && (forall i :: 0 <= i < Stop(slots) && ps[i] == p ==> slots[i].found.None?) ==>
              Populated(ps, slots, store)[p] == store[p]
  {
    StoreAfterSpec(ps, slots, Stop(slots), store);
    forall i | 0 <= i < Stop(slots) && slots[i].found.Some? && slots[i].parse(slots[i].found.value).Success?
      ensures WrittenBy(ps, slots, Stop(slots), i)
    { }
  }

  /** Cells outside the pass are not touched, and the pass writes the cells
      it covers the same way whatever the rest of the store holds. */
  lemma {:induction false} StoreAfterLocal<P>(ps: seq<P>, slots: seq<Slot>, n: nat, s: Store<P>, t: Store<P>)
    requires |ps| == |slots| && n <= |ps|
    ensures forall p :: p in s ==> p in StoreAfter(ps, slots, n, s)
    ensures forall p :: p in t ==> p in StoreAfter(ps, slots, n, t)
    ensures forall p :: p in StoreAfter(ps, slots, n, s) ==> p in s || p in ps
    ensures forall p :: p in s && p !in ps ==> StoreAfter(ps, slots, n, s)[p] == s[p]
    ensures (forall p :: p in ps ==> p in s && p in t && s[p] == t[p]) ==>
              forall p :: p in ps ==> StoreAfter(ps, slots, n, s)[p] == StoreAfter(ps, slots, n, t)[p]
    decreases n
  {
    if n > 0 {
      StoreAfterLocal(ps, slots, n - 1, s, t);
    }
  }

  // ------------------------------------------------------------ all jobs

  /** One bound object as notifyUpdate sees it: its cells and their slots. */
  datatype Job<P(==)> = Job(ps: seq<P>, slots: seq<Slot>)

  predicate JobsWf<P(==)>(jobs: seq<Job<P>>) {
    forall k :: 0 <= k < |jobs| ==> |jobs[k].ps| == |jobs[k].slots|
  }

  /** notifyUpdate: populate each bound object in turn, on the store the
      previous ones left, until the first one fails. */
  function RunAll<P(==)>(jobs: seq<Job<P>>, store: Store<P>): (Outcome<ConfError>, Store<P>)
    requires JobsWf(jobs)
    decreases |jobs|
  {
    if jobs == [] then (Pass, store)
    else
      var next := Populated(jobs[0].ps, jobs[0].slots, store);
      if PopulateOutcome(jobs[0].slots).Fail? then (PopulateOutcome(jobs[0].slots), next)
      else RunAll(jobs[1..], next)
  }

  /** Running two lists of objects one after the other: the second runs only
      when the first passes, and then on the store the first left. */
  lemma {:induction false} RunAllAppend<P>(a: seq<Job<P>>, b: seq<Job<P>>, store: Store<P>)
    requires JobsWf(a) && JobsWf(b)
    ensures JobsWf(a + b)
    ensures RunAll(a + b, store) ==
              if RunAll(a, store).0.Fail? then RunAll(a, store) else RunAll(b, RunAll(a, store).1)
    decreases |a|
  {
    if a == [] {
      assert a + b == b;
    } else {
      assert (a + b)[0] == a[0];
      assert (a + b)[1..] == a[1..] + b;
      RunAllAppend(a[1..], b, Populated(a[0].ps, a[0].slots, store));
    }
  }

  /** The update succeeds exactly when every object populates without failure. */
  lemma {:induction false} RunAllPass<P>(jobs: seq<Job<P>>, store: Store<P>)
    requires JobsWf(jobs)
    ensures RunAll(jobs, store).0.Pass? <==> forall k :: 0 <= k < |jobs| ==> PopulateOutcome(jobs[k].slots).Pass?
    decreases |jobs|
  {
    if jobs != [] {
      var next := Populated(jobs[0].ps, jobs[0].slots, store);
      RunAllPass(jobs[1..], next);
      forall k | 0 < k < |jobs| ensures jobs[k] == jobs[1..][k - 1] { }
    }
  }

  /** The first object that fails stops the update: its outcome is the
      update's, and the store is what it was right after that object, so
      the objects after it are not populated. */
  lemma {:induction false} RunAllFirstFailure<P>(jobs: seq<Job<P>>, store: Store<P>, k: nat)
    requires JobsWf(jobs) && k < |jobs|
    requires forall j :: 0 <= j < k ==> PopulateOutcome(jobs[j].slots).Pass?
    requires PopulateOutcome(jobs[k].slots).Fail?
    ensures JobsWf(jobs[..k + 1])
    ensures RunAll(jobs, store) == RunAll(jobs[..k + 1], store)
    ensures RunAll(jobs, store).0 == PopulateOutcome(jobs[k].slots)
    decreases k
  {
    var next := Populated(jobs[0].ps, jobs[0].slots, store);
    if k == 0 {
      assert jobs[..1][1..] == [];
    } else {
      forall j | 0 <= j < k - 1 ensures jobs[1..][j] == jobs[j + 1] { }
      RunAllFirstFailure(jobs[1..], next, k - 1);
      assert jobs[..k + 1][1..] == jobs[1..][..k];
      assert jobs[..k + 1][0] == jobs[0];
    }
  }
}
