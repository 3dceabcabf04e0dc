/**
 * Sequences of calls on one repository, run one after another.  The store's
 * methods are followed call by call (Run) and compared with a reference that
 * looks only at the calls: a read answers the input of the latest write
 * before it, or what the initial state answers when no write came first.
 */
module Trace {
  import opened Wrappers
  import opened Store

  /** One call on the repository: a read or a write of `input`. */
  datatype Call = Get | Set(input: NullableString)

  /** The state after one call and the call's answer. */
  function Step(d: Dictionary, c: Call): (Dictionary, NullableString)
  {
    match c
    case Get => (d, Lookup(d))
    case Set(v) => (Update(d, v), v)
  }

  /**
   * Runs `calls` in order from state `d`: the final state and the answers
   * of the calls, one per call and in call order.
   */
  function Run(d: Dictionary, calls: seq<Call>): (r: (Dictionary, seq<NullableString>))
    ensures |r.1| == |calls|
    ensures SingleKey(d) ==> SingleKey(r.0)
    decreases |calls|
  {
    if calls == [] then (d, [])
    else
      var before := Run(d, calls[..|calls| - 1]);
      var last := Step(before.0, calls[|calls| - 1]);
      (last.0, before.1 + [last.1])
  }

  /** The input of the latest write in `calls`, or None when there is no write. */
  function LastWrite(calls: seq<Call>): Option<NullableString>
    decreases |calls|
  {
    if calls == [] then None
    else
      match calls[|calls| - 1]
      case Set(v) => Some(v)
      case Get => LastWrite(calls[..|calls| - 1])
  }

  /** The reference answer of call `c` issued after the calls `before`, from state `d`. */
  function Expected(d: Dictionary, before: seq<Call>, c: Call): NullableString
  {
    match c
    case Set(v) => v
    case Get =>
      match LastWrite(before)
      case Some(v) => v
      case None => Lookup(d)
  }

  /**
   * LastWrite finds nothing exactly when every call is a read, and otherwise
   * finds the input of a write that no other write follows.
   */
  lemma {:induction false} LastWriteIsLatest(calls: seq<Call>)
    ensures LastWrite(calls).None? <==> forall i :: 0 <= i < |calls| ==> calls[i].Get?
    ensures LastWrite(calls).Some? ==>
              exists i :: 0 <= i < |calls| && calls[i] == Set(LastWrite(calls).value) &&
                          forall j :: i < j < |calls| ==> calls[j].Get?
    decreases |calls|
  {
    if calls != [] {
      var init := calls[..|calls| - 1];
      LastWriteIsLatest(init);
      assert forall i :: 0 <= i < |init| ==> init[i] == calls[i];
      match calls[|calls| - 1]
      case Set(v) =>
        assert calls[|calls| - 1] == Set(LastWrite(calls).value);
      case Get =>
        if LastWrite(init).Some? {
          var i :| 0 <= i < |init| && init[i] == Set(LastWrite(init).value) &&
                   forall j :: i < j < |init| ==> init[j].Get?;
          assert calls[i] == Set(LastWrite(calls).value);
        }
    }
  }

  /** The final state of a run: the initial one, overwritten by the latest write if any. */
  lemma {:induction false} FinalState(d: Dictionary, calls: seq<Call>)
    ensures Run(d, calls).0 == match LastWrite(calls) case None => d case Some(v) => Update(d, v)
    decreases |calls|
  {
    if calls != [] {
      var init := calls[..|calls| - 1];
      FinalState(d, init);
      match calls[|calls| - 1]
      case Set(v) =>
        match LastWrite(init) {
          case None =>
          case Some(u) => LastWriteWins(d, u, v);
        }
      case Get =>
    }
  }

  /** The answer of call i depends only on the state the first i calls leave. */
  lemma {:induction false} AnswerFromPrefix(d: Dictionary, calls: seq<Call>, i: nat)
    requires i < |calls|
    ensures Run(d, calls).1[i] == Step(Run(d, calls[..i]).0, calls[i]).1
    decreases |calls|
  {
    var init := calls[..|calls| - 1];
    if i < |calls| - 1 {
      AnswerFromPrefix(d, init, i);
      assert init[..i] == calls[..i];
    } else {
      assert init == calls[..i];
    }
  }

  /** Every answer of a run agrees with the reference. */
  lemma AnswersMatchReference(d: Dictionary, calls: seq<Call>, i: nat)
    requires i < |calls|
    ensures Run(d, calls).1[i] == Expected(d, calls[..i], calls[i])
  {
    AnswerFromPrefix(d, calls, i);
    FinalState(d, calls[..i]);
    match LastWrite(calls[..i])
    case None =>
    case Some(v) => ReadAfterWrite(d, v);
  }

  /** On a fresh repository, a read that no write precedes answers the fallback text. */
  lemma FreshReadAnswersFallback(calls: seq<Call>, i: nat)
    requires i < |calls| && calls[i] == Get
    requires forall j :: 0 <= j < i ==> calls[j].Get?
    ensures Run(map[], calls).1[i] == Str(NoMotd)
  {
    var before := calls[..i];
    assert forall j :: 0 <= j < |before| ==> before[j].Get?;
    LastWriteIsLatest(before);
    assert LastWrite(before) == None;
    AnswersMatchReference(map[], calls, i);
  }

  /**
   * Once a write has happened, "motd" stays present for the rest of the run,
   * and every later read answers the value then stored instead of the fallback.
   */
  lemma KeyStaysPresent(d: Dictionary, calls: seq<Call>, i: nat, j: nat)
    requires i < j <= |calls| && calls[i].Set?
    ensures MotdKey in Run(d, calls[..j]).0
    ensures j < |calls| && calls[j] == Get ==>
              Run(d, calls).1[j] == Run(d, calls[..j]).0[MotdKey]
  {
    var prefix := calls[..j];
    assert prefix[i] == calls[i];
    LastWriteIsLatest(prefix);
    FinalState(d, prefix);
    if j < |calls| {
      AnswerFromPrefix(d, calls, j);
    }
  }

  /** A read right after a write answers what was written. */
  lemma TraceReadAfterWrite(d: Dictionary, calls: seq<Call>, v: NullableString)
    ensures Run(d, calls + [Set(v), Get]).1[|calls| + 1] == v
  {
    var t := calls + [Set(v), Get];
    AnswersMatchReference(d, t, |calls| + 1);
    assert t[..|calls| + 1] == calls + [Set(v)];
  }

  /** Of two writes in a row, a following read answers the second. */
  lemma TraceLastWriteWins(d: Dictionary, calls: seq<Call>, a: NullableString, b: NullableString)
    ensures Run(d, calls + [Set(a), Set(b), Get]).1[|calls| + 2] == b
  {
    var t := calls + [Set(a), Set(b), Get];
    AnswersMatchReference(d, t, |calls| + 2);
    assert t[..|calls| + 2] == (calls + [Set(a)]) + [Set(b)];
  }

  /** Repeating a write changes neither the final state nor what a following read answers. */
  lemma TraceWriteIdempotent(d: Dictionary, calls: seq<Call>, v: NullableString)
    ensures Run(d, calls + [Set(v), Set(v)]).0 == Run(d, calls + [Set(v)]).0
    ensures Run(d, calls + [Set(v), Set(v), Get]).1[|calls| + 2] ==
            Run(d, calls + [Set(v), Get]).1[|calls| + 1]
  {
    var once := calls + [Set(v)];
    var twice := once + [Set(v)];
    assert calls + [Set(v), Set(v)] == twice;
    assert twice[..|twice| - 1] == once;
    assert once[..|once| - 1] == calls;
    WriteIdempotent(Run(d, calls).0, v);
    TraceReadAfterWrite(d, calls, v);
    TraceLastWriteWins(d, calls, v, v);
  }

  /** A run from a fresh repository never holds a key other than "motd". */
  lemma RunKeepsSingleKey(calls: seq<Call>)
    ensures SingleKey(Run(map[], calls).0)
    ensures |Run(map[], calls).0| <= 1
  {
    var s := Run(map[], calls).0;
    assert s.Keys <= {MotdKey};
    if MotdKey in s {
      assert s.Keys == {MotdKey};
    } else {
      assert s.Keys == {};
    }
  }

  /** A get/put session on a fresh repository. */
  lemma GetPutSession()
    ensures Run(map[], [Get, Set(Str("hello")), Get, Set(Str("")), Get]).1 ==
            [Str(NoMotd), Str("hello"), Str("hello"), Str(""), Str("")]
  {
    var t := [Get, Set(Str("hello")), Get, Set(Str("")), Get];
    forall i | 0 <= i < 5
      ensures Run(map[], t).1[i] == [Str(NoMotd), Str("hello"), Str("hello"), Str(""), Str("")][i]
    {
      AnswersMatchReference(map[], t, i);
    }
  }
}
