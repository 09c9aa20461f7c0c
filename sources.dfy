/** The lookups of the out-of-the-box sources, as functions on the values
    they see: the environment-variable read and the priority order of a
    combinator. */
module ConfEagerSources {
  import opened Wrappers

  /** `EnvironmentVariables._get`: the variable's value, where an unset and an
      empty variable both count as absent. */
  function EnvironmentValue(env: map<string, string>, name: string): (r: Option<string>)
    ensures r.Some? <==> name in env && env[name] != ""
    ensures r.Some? ==> r.value == env[name]
  {
    if name in env && env[name] != "" then Some(env[name]) else None
  }

  /** `Combinator._get` on the answers of its children, in order: the first
      answer that is present. */
  function FirstPresent(answers: seq<Option<string>>): Option<string>
    decreases |answers|
  {
    if answers == [] then None
    else if answers[0].Some? then answers[0]
    else FirstPresent(answers[1..])
  }

  /** The combinator answers with child `i` exactly when every earlier child
      is absent and child `i` is present. */
  lemma {:induction false} FirstPresentHit(answers: seq<Option<string>>, i: nat)
    requires i < |answers|
    requires forall k :: 0 <= k < i ==> answers[k].None?
    requires answers[i].Some?
    ensures FirstPresent(answers) == answers[i]
    decreases i
  {
    if i > 0 {
      FirstPresentHit(answers[1..], i - 1);
    }
  }

  /** The answer is absent exactly when every child is absent, which is the
      case in particular when there are no children. */
  lemma {:induction false} FirstPresentAbsent(answers: seq<Option<string>>)
    ensures FirstPresent(answers).None? <==> forall k :: 0 <= k < |answers| ==> answers[k].None?
    decreases |answers|
  {
    if answers != [] {
      FirstPresentAbsent(answers[1..]);
      if answers[0].None? {
        forall k | 0 <= k < |answers| - 1 ensures answers[1..][k] == answers[k + 1] { }
      }
    }
  }

  /** A present answer is always some child's answer, and the first present one. */
  lemma {:induction false} FirstPresentIsFirstHit(answers: seq<Option<string>>)
    ensures FirstPresent(answers).Some? ==>
              exists i :: && 0 <= i < |answers|
                          && answers[i] == FirstPresent(answers)
                          && forall k :: 0 <= k < i ==> answers[k].None?
    decreases |answers|
  {
    if answers != [] && answers[0].None? {
      FirstPresentIsFirstHit(answers[1..]);
      if FirstPresent(answers).Some? {
        var i :| && 0 <= i < |answers[1..]|
                 && answers[1..][i] == FirstPresent(answers[1..])
                 && forall k :: 0 <= k < i ==> answers[1..][k].None?;
        assert answers[i + 1] == FirstPresent(answers);
        forall k | 0 <= k < i + 1 ensures answers[k].None? {
          if k > 0 { assert answers[k] == answers[1..][k - 1]; }
        }
      }
    }
  }

  /** The children after the first hit are never consulted: whatever they
      answer, the combinator's answer is the same. */
  lemma {:induction false} FirstPresentIgnoresRest(answers: seq<Option<string>>, rest: seq<Option<string>>, i: nat)
    requires i < |answers| && answers[i].Some?
    requires forall k :: 0 <= k < i ==> answers[k].None?
    ensures FirstPresent(answers[..i + 1] + rest) == FirstPresent(answers)
  {
    var xs := answers[..i + 1] + rest;
    FirstPresentHit(answers, i);
    FirstPresentHit(xs, i);
  }

  /** With two children that both know the key, the first one wins, so
      swapping them swaps the answer. */
  lemma FirstPresentSwap(a: string, b: string)
    ensures FirstPresent([Some(a), Some(b)]) == Some(a)
    ensures FirstPresent([Some(b), Some(a)]) == Some(b)
  {
  }

  /** A child that does not know the key is skipped in favour of the next. */
  lemma FirstPresentSkipsAbsent(a: string)
    ensures FirstPresent([None, Some(a)]) == Some(a)
    ensures FirstPresent([]) == None
  {
    assert [None, Some(a)][1..] == [Some(a)];
  }
}
