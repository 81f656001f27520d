/** Start and shutdown hook sequencing. The dependency-injection container that
    invokes hooks and the context that bounds each phase are outside the model:
    an invocation's outcome is the input `invoke`, and what ctx.Err() reports
    before bundle i is the input `ctxErr(i)`. Each method also returns the
    invocations it made, in order, so that the sequencing can be stated. */
module Lifecycle {
  import opened BundleModel

  /** hook: a recorded BeforeShutdown invocation and the name of its bundle. */
  datatype HookRecord = HookRecord(name: string, hook: Invocation)

  /** A BeforeStart invocation made for a bundle. */
  datatype Call = Call(bundle: string, hook: Invocation)

  /** "boot <bundle> bundle failed: <cause>" */
  datatype BootError = BootError(bundle: string, cause: Error)

  /** The error beforeStart returns: the context was done before a bundle, or
      some start hooks failed (a startErrors list, never empty). */
  datatype StartFailure =
    | ContextDone(err: BootError)
    | HooksFailed(errs: seq<BootError>)

  /** "shutdown <name> failed: <cause>" */
  datatype ShutdownError = ShutdownError(name: string, cause: Error)

  /** The error beforeShutdown returns: the context finished first, or some
      shutdown hooks failed (an errShutdown list, never empty). */
  datatype ShutdownFailure =
    | ShutdownContextDone(cause: Error)
    | ShutdownHooksFailed(errs: seq<ShutdownError>)

  // ---------------------------------------------------------------------------
  // Error messages
  // ---------------------------------------------------------------------------

  /** The message of a boot error: the bundle's name can be read back after
      "boot ", and the message ends with the cause's. */
  function BootMessage(e: BootError): (r: string)
    ensures |r| == |"boot "| + |e.bundle| + |" bundle failed: "| + |e.cause.message|
    ensures r[..5] == "boot " && r[5..5 + |e.bundle|] == e.bundle
    ensures r[|r| - |e.cause.message|..] == e.cause.message
  {
    "boot " + e.bundle + " bundle failed: " + e.cause.message
  }

  /** The message of a shutdown error: the hook's bundle name can be read
      back after "shutdown ", and the message ends with the cause's. */
  function ShutdownErrorMessage(e: ShutdownError): (r: string)
    ensures |r| == |"shutdown "| + |e.name| + |" failed: "| + |e.cause.message|
    ensures r[..9] == "shutdown " && r[9..9 + |e.name|] == e.name
    ensures r[|r| - |e.cause.message|..] == e.cause.message
  {
    "shutdown " + e.name + " failed: " + e.cause.message
  }

  /** strings.Join: the parts separated by sep; no parts give "". */
  function Join(parts: seq<string>, sep: string): string
  {
    if |parts| == 0 then ""
    else if |parts| == 1 then parts[0]
    else Join(parts[..|parts| - 1], sep) + sep + parts[|parts| - 1]
  }

  /** The messages of a list of shutdown errors, in order. */
  function ShutdownMessages(errs: seq<ShutdownError>): (r: seq<string>)
    ensures |r| == |errs|
    ensures forall i :: 0 <= i < |errs| ==> r[i] == ShutdownErrorMessage(errs[i])
  {
    seq(|errs|, i requires 0 <= i < |errs| => ShutdownErrorMessage(errs[i]))
  }

  /** errShutdown.Error: the messages joined with "; ". No errors give "",
      one error gives its own message; otherwise the first error's message
      starts the result and the last error's ends it. */
  function ErrShutdownMessage(errs: seq<ShutdownError>): (r: string)
    ensures |errs| == 0 ==> r == ""
    ensures |errs| == 1 ==> r == ShutdownErrorMessage(errs[0])
    ensures |errs| > 0 ==> ShutdownErrorMessage(errs[0]) <= r
    ensures |errs| > 0 ==> var last := ShutdownErrorMessage(errs[|errs| - 1]); |last| <= |r| && r[|r| - |last|..] == last
  {
    if |errs| == 0 then "" else
      JoinEnds(ShutdownMessages(errs), "; ");
      Join(ShutdownMessages(errs), "; ")
  }

  /** The first part starts a join and the last part ends it. */
  lemma {:induction false} JoinEnds(parts: seq<string>, sep: string)
    requires |parts| > 0
    decreases |parts|
    ensures parts[0] <= Join(parts, sep)
    ensures var r, last := Join(parts, sep), parts[|parts| - 1]; |last| <= |r| && r[|r| - |last|..] == last
  {
    if |parts| > 1 {
      var init := parts[..|parts| - 1];
      JoinEnds(init, sep);
      assert init[0] == parts[0];
    }
  }

  /** The message of the error beforeShutdown returns: "shutdown failed: "
      followed by the context's error, or by the joined hook errors. */
  function ShutdownFailureMessage(f: ShutdownFailure): (r: string)
    ensures |"shutdown failed: "| <= |r| && r[..|"shutdown failed: "|] == "shutdown failed: "
    ensures f.ShutdownContextDone? ==> r[|"shutdown failed: "|..] == f.cause.message
    ensures f.ShutdownHooksFailed? ==> r[|"shutdown failed: "|..] == ErrShutdownMessage(f.errs)
  {
    match f
    case ShutdownContextDone(cause) => "shutdown failed: " + cause.message
    case ShutdownHooksFailed(errs) => "shutdown failed: " + ErrShutdownMessage(errs)
  }

  // ---------------------------------------------------------------------------
  // What one hook contributes to the start pass
  // ---------------------------------------------------------------------------

  /** The BeforeStart call a hook makes: none when BeforeStart is nil. */
  function CallOf(name: string, h: Hook): seq<Call>
  {
    if h.beforeStart.Some? then [Call(name, h.beforeStart.value)] else []
  }

  /** The shutdown record a hook leaves: only when it has both halves. */
  function RecordOf(name: string, h: Hook): seq<HookRecord>
  {
    if h.beforeStart.Some? && h.beforeShutdown.Some? then [HookRecord(name, h.beforeShutdown.value)] else []
  }

  /** The start error a hook adds: only when its BeforeStart is invoked and fails. */
  function FailureOf(name: string, h: Hook, invoke: Invocation -> Option<Error>): seq<BootError>
  {
    if h.beforeStart.Some? && invoke(h.beforeStart.value).Some?
    then [BootError(name, invoke(h.beforeStart.value).value)]
    else []
  }

  // The same, over the hooks of one bundle, in hook order

  function HookCalls(name: string, hooks: seq<Hook>): seq<Call>
  {
    if |hooks| == 0 then [] else HookCalls(name, hooks[..|hooks| - 1]) + CallOf(name, hooks[|hooks| - 1])
  }

  function HookRecords(name: string, hooks: seq<Hook>): seq<HookRecord>
  {
    if |hooks| == 0 then [] else HookRecords(name, hooks[..|hooks| - 1]) + RecordOf(name, hooks[|hooks| - 1])
  }

  function HookFailures(name: string, hooks: seq<Hook>, invoke: Invocation -> Option<Error>): seq<BootError>
  {
    if |hooks| == 0 then []
    else HookFailures(name, hooks[..|hooks| - 1], invoke) + FailureOf(name, hooks[|hooks| - 1], invoke)
  }

  // The same, over a list of bundles, in bundle order

  function StartCalls(bundles: seq<Bundle>): seq<Call>
  {
    if |bundles| == 0 then []
    else
      var b := bundles[|bundles| - 1];
      StartCalls(bundles[..|bundles| - 1]) + HookCalls(b.name, b.hooks)
  }

  function StartRecords(bundles: seq<Bundle>): seq<HookRecord>
  {
    if |bundles| == 0 then []
    else
      var b := bundles[|bundles| - 1];
      StartRecords(bundles[..|bundles| - 1]) + HookRecords(b.name, b.hooks)
  }

  function StartFailures(bundles: seq<Bundle>, invoke: Invocation -> Option<Error>): seq<BootError>
  {
    if |bundles| == 0 then []
    else
      var b := bundles[|bundles| - 1];
      StartFailures(bundles[..|bundles| - 1], invoke) + HookFailures(b.name, b.hooks, invoke)
  }

  /** The first bundle index from `from` on, and below n, before which the
      context reports an error; n when there is none. */
  function FirstDone(ctxErr: nat -> Option<Error>, from: nat, n: nat): (i: nat)
    requires from <= n
    decreases n - from
    ensures from <= i <= n
    ensures forall j :: from <= j < i ==> ctxErr(j).None?
    ensures i < n ==> ctxErr(i).Some?
  {
    if from == n || ctxErr(from).Some? then from else FirstDone(ctxErr, from + 1, n)
  }

  /** What beforeStart produces: the shutdown records, the error and the start
      calls made. */
  datatype StartOutcome = StartOutcome(after: seq<HookRecord>, err: Option<StartFailure>, calls: seq<Call>)

  /** beforeStart as a whole. If the context is done before bundle i, the
      records and calls of the bundles before i come back with an error naming
      bundle i, and start errors collected so far are dropped. Otherwise every
      start hook has run; any failure empties the record list. */
  function StartSpec(bundles: seq<Bundle>, ctxErr: nat -> Option<Error>, invoke: Invocation -> Option<Error>): StartOutcome
  {
    var i := FirstDone(ctxErr, 0, |bundles|);
    if i < |bundles| then
      StartOutcome(StartRecords(bundles[..i]),
                   Some(ContextDone(BootError(bundles[i].name, ctxErr(i).value))),
                   StartCalls(bundles[..i]))
    else if |StartFailures(bundles, invoke)| != 0 then
      StartOutcome([], Some(HooksFailed(StartFailures(bundles, invoke))), StartCalls(bundles))
    else
      StartOutcome(StartRecords(bundles), None, StartCalls(bundles))
  }

  // ---------------------------------------------------------------------------
  // The start pass as the source runs it
  // ---------------------------------------------------------------------------

  /** beforeStart: checks the context before each bundle, invokes every
      non-nil BeforeStart in bundle and hook order, collects failures without
      stopping, and records each BeforeShutdown whose BeforeStart exists. */
  method BeforeStart(bundles: seq<Bundle>, ctxErr: nat -> Option<Error>, invoke: Invocation -> Option<Error>)
    returns (after: seq<HookRecord>, err: Option<StartFailure>, calls: seq<Call>)
    ensures StartOutcome(after, err, calls) == StartSpec(bundles, ctxErr, invoke)
  {
    var errs: seq<BootError> := [];
    after, calls := [], [];
    var i := 0;
    while i < |bundles|
      invariant 0 <= i <= |bundles|
      invariant forall j :: 0 <= j < i ==> ctxErr(j).None?
      invariant calls == StartCalls(bundles[..i])
      invariant after == StartRecords(bundles[..i])
      invariant errs == StartFailures(bundles[..i], invoke)
    {
      var b := bundles[i];
      if ctxErr(i).Some? {
        StartSpecDone(bundles, ctxErr, invoke, i);
        return after, Some(ContextDone(BootError(b.name, ctxErr(i).value))), calls;
      }
      var c, a, e := StartHooks(b.name, b.hooks, invoke);
      calls, after, errs := calls + c, after + a, errs + e;
      BundleStep(bundles, i, invoke);
      i := i + 1;
    }
    assert bundles[..i] == bundles;
    StartSpecFine(bundles, ctxErr, invoke);
    if |errs| != 0 {
      return [], Some(HooksFailed(errs)), calls;
    }
    return after, None, calls;
  }

  /** StartSpec when the context is first done before bundle i. */
  lemma StartSpecDone(bundles: seq<Bundle>, ctxErr: nat -> Option<Error>, invoke: Invocation -> Option<Error>, i: nat)
    requires i < |bundles| && ctxErr(i).Some?
    requires forall j :: 0 <= j < i ==> ctxErr(j).None?
    ensures StartSpec(bundles, ctxErr, invoke)
            == StartOutcome(StartRecords(bundles[..i]), Some(ContextDone(BootError(bundles[i].name, ctxErr(i).value))),
                            StartCalls(bundles[..i]))
  {
    FirstDoneAt(ctxErr, 0, |bundles|, i);
  }

  /** StartSpec when the context stays fine through the last bundle. */
  lemma StartSpecFine(bundles: seq<Bundle>, ctxErr: nat -> Option<Error>, invoke: Invocation -> Option<Error>)
    requires forall j :: 0 <= j < |bundles| ==> ctxErr(j).None?
    ensures var fs := StartFailures(bundles, invoke);
            StartSpec(bundles, ctxErr, invoke)
            == if |fs| != 0 then StartOutcome([], Some(HooksFailed(fs)), StartCalls(bundles))
               else StartOutcome(StartRecords(bundles), None, StartCalls(bundles))
  {
    FirstDoneAt(ctxErr, 0, |bundles|, |bundles|);
  }

  /** The inner loop of beforeStart over one bundle's hooks: each non-nil
      BeforeStart is invoked, its failure collected, and its BeforeShutdown
      recorded when there is one. */
  method StartHooks(name: string, hooks: seq<Hook>, invoke: Invocation -> Option<Error>)
    returns (calls: seq<Call>, after: seq<HookRecord>, errs: seq<BootError>)
    ensures calls == HookCalls(name, hooks)
    ensures after == HookRecords(name, hooks)
    ensures errs == HookFailures(name, hooks, invoke)
  {
    calls, after, errs := [], [], [];
    var k := 0;
    while k < |hooks|
      invariant 0 <= k <= |hooks|
      invariant calls == HookCalls(name, hooks[..k])
      invariant after == HookRecords(name, hooks[..k])
      invariant errs == HookFailures(name, hooks[..k], invoke)
    {
      var h := hooks[k];
      HookStep(name, hooks, k, invoke);
      if h.beforeStart.Some? {
        calls := calls + [Call(name, h.beforeStart.value)];
        var e := invoke(h.beforeStart.value);
        if e.Some? {
          errs := errs + [BootError(name, e.value)];
        }
        if h.beforeShutdown.Some? {
          after := after + [HookRecord(name, h.beforeShutdown.value)];
        }
      }
      k := k + 1;
    }
    assert hooks[..k] == hooks;
  }

  /** One more hook extends the calls, records and failures of a bundle by
      that hook's own. */
  lemma HookStep(name: string, hooks: seq<Hook>, k: nat, invoke: Invocation -> Option<Error>)
    requires k < |hooks|
    ensures HookCalls(name, hooks[..k + 1]) == HookCalls(name, hooks[..k]) + CallOf(name, hooks[k])
    ensures HookRecords(name, hooks[..k + 1]) == HookRecords(name, hooks[..k]) + RecordOf(name, hooks[k])
    ensures HookFailures(name, hooks[..k + 1], invoke) == HookFailures(name, hooks[..k], invoke) + FailureOf(name, hooks[k], invoke)
  {
    assert hooks[..k + 1][..k] == hooks[..k];
  }

  /** One more bundle extends the start calls, records and failures by those
      of its hooks. */
  lemma BundleStep(bundles: seq<Bundle>, i: nat, invoke: Invocation -> Option<Error>)
    requires i < |bundles|
    ensures var b := bundles[i]; StartCalls(bundles[..i + 1]) == StartCalls(bundles[..i]) + HookCalls(b.name, b.hooks)
    ensures var b := bundles[i]; StartRecords(bundles[..i + 1]) == StartRecords(bundles[..i]) + HookRecords(b.name, b.hooks)
    ensures var b := bundles[i]; StartFailures(bundles[..i + 1], invoke) == StartFailures(bundles[..i], invoke) + HookFailures(b.name, b.hooks, invoke)
  {
    assert bundles[..i + 1][..i] == bundles[..i];
  }

  /** The first done index is the one before which the context was fine and at
      which it reports an error (or the end). */
  lemma {:induction false} FirstDoneAt(ctxErr: nat -> Option<Error>, from: nat, n: nat, i: nat)
    requires from <= i <= n
    requires forall j :: from <= j < i ==> ctxErr(j).None?
    requires i < n ==> ctxErr(i).Some?
    decreases n - from
    ensures FirstDone(ctxErr, from, n) == i
  {
    if from < i {
      FirstDoneAt(ctxErr, from + 1, n, i);
    }
  }

  // ---------------------------------------------------------------------------
  // Lemmas about the start pass
  // ---------------------------------------------------------------------------

  /** Dropping the last element of a + b drops it from b. */
  lemma DropLastAppend<T>(a: seq<T>, b: seq<T>)
    requires |b| > 0
    ensures (a + b)[..|a + b| - 1] == a + b[..|b| - 1]
    ensures (a + b)[|a + b| - 1] == b[|b| - 1]
  {
  }

  lemma AppendAssoc<T>(a: seq<T>, b: seq<T>, c: seq<T>)
    ensures (a + b) + c == a + (b + c)
  {
  }

  /** The start calls of consecutive bundle lists follow each other: bundles
      are worked through in order. */
  lemma {:induction false} StartCallsAppend(a: seq<Bundle>, b: seq<Bundle>)
    decreases |b|
    ensures StartCalls(a + b) == StartCalls(a) + StartCalls(b)
  {
    if |b| == 0 {
      assert a + b == a;
    } else {
      var init, last := b[..|b| - 1], b[|b| - 1];
      DropLastAppend(a, b);
      StartCallsAppend(a, init);
      AppendAssoc(StartCalls(a), StartCalls(init), HookCalls(last.name, last.hooks));
    }
  }

  /** The shutdown records of consecutive bundle lists follow each other. */
  lemma {:induction false} StartRecordsAppend(a: seq<Bundle>, b: seq<Bundle>)
    decreases |b|
    ensures StartRecords(a + b) == StartRecords(a) + StartRecords(b)
  {
    if |b| == 0 {
      assert a + b == a;
    } else {
      var init, last := b[..|b| - 1], b[|b| - 1];
      DropLastAppend(a, b);
      StartRecordsAppend(a, init);
      AppendAssoc(StartRecords(a), StartRecords(init), HookRecords(last.name, last.hooks));
    }
  }

  /** The start errors a list of calls produces, in call order, each tagged
      with the name of the bundle the call was made for. */
  function FailingCalls(calls: seq<Call>, invoke: Invocation -> Option<Error>): seq<BootError>
  {
    if |calls| == 0 then []
    else
      var c := calls[|calls| - 1];
      FailingCalls(calls[..|calls| - 1], invoke)
        + (if invoke(c.hook).Some? then [BootError(c.bundle, invoke(c.hook).value)] else [])
  }

  lemma {:induction false} FailingCallsAppend(a: seq<Call>, b: seq<Call>, invoke: Invocation -> Option<Error>)
    decreases |b|
    ensures FailingCalls(a + b, invoke) == FailingCalls(a, invoke) + FailingCalls(b, invoke)
  {
    if |b| == 0 {
      assert a + b == a;
    } else {
      FailingCallsAppend(a, b[..|b| - 1], invoke);
      assert (a + b)[..|a + b| - 1] == a + b[..|b| - 1];
    }
  }

  lemma {:induction false} HookFailuresAreFailingCalls(name: string, hooks: seq<Hook>, invoke: Invocation -> Option<Error>)
    decreases |hooks|
    ensures HookFailures(name, hooks, invoke) == FailingCalls(HookCalls(name, hooks), invoke)
  {
    if |hooks| > 0 {
      var init := hooks[..|hooks| - 1];
      HookFailuresAreFailingCalls(name, init, invoke);
      var h := hooks[|hooks| - 1];
      FailingCallsAppend(HookCalls(name, init), CallOf(name, h), invoke);
      if h.beforeStart.Some? {
        assert [Call(name, h.beforeStart.value)][..0] == [];
      }
    }
  }

  /** A failing start hook does not stop the pass: the start errors are exactly
      the failing calls among all start calls, in call order, each tagged with
      its bundle's name. */
  lemma {:induction false} StartFailuresAreFailingCalls(bundles: seq<Bundle>, invoke: Invocation -> Option<Error>)
    decreases |bundles|
    ensures StartFailures(bundles, invoke) == FailingCalls(StartCalls(bundles), invoke)
  {
    if |bundles| > 0 {
      var init := bundles[..|bundles| - 1];
      var b := bundles[|bundles| - 1];
      StartFailuresAreFailingCalls(init, invoke);
      HookFailuresAreFailingCalls(b.name, b.hooks, invoke);
      FailingCallsAppend(StartCalls(init), HookCalls(b.name, b.hooks), invoke);
    }
  }

  /** When the context is done before bundle i: the pass returns the records
      of the bundles before i and an error naming bundle i, reports no start
      error even if some hooks failed, and the start calls it left out are
      exactly those of bundle i and later. */
  lemma ContextDoneAt(bundles: seq<Bundle>, ctxErr: nat -> Option<Error>, invoke: Invocation -> Option<Error>, i: nat)
    requires i < |bundles|
    requires forall j :: 0 <= j < i ==> ctxErr(j).None?
    requires ctxErr(i).Some?
    ensures StartSpec(bundles, ctxErr, invoke).after == StartRecords(bundles[..i])
    ensures StartSpec(bundles, ctxErr, invoke).err == Some(ContextDone(BootError(bundles[i].name, ctxErr(i).value)))
    ensures StartSpec(bundles, ctxErr, invoke).calls + StartCalls(bundles[i..]) == StartCalls(bundles)
  {
    FirstDoneAt(ctxErr, 0, |bundles|, i);
    var r := StartSpec(bundles, ctxErr, invoke);
    assert r.calls == StartCalls(bundles[..i]);
    StartCallsSplit(bundles, i);
  }

  lemma StartCallsSplit(bundles: seq<Bundle>, i: nat)
    requires i <= |bundles|
    ensures StartCalls(bundles[..i]) + StartCalls(bundles[i..]) == StartCalls(bundles)
  {
    var a, b := bundles[..i], bundles[i..];
    assert a + b == bundles;
    StartCallsAppend(a, b);
  }

  /** When the context stays fine, every start call is made; the pass fails
      exactly when some start call fails, and then returns no records. */
  lemma ContextFine(bundles: seq<Bundle>, ctxErr: nat -> Option<Error>, invoke: Invocation -> Option<Error>)
    requires forall j :: 0 <= j < |bundles| ==> ctxErr(j).None?
    ensures StartSpec(bundles, ctxErr, invoke).calls == StartCalls(bundles)
    ensures StartSpec(bundles, ctxErr, invoke).err.None? <==>
              forall k :: 0 <= k < |StartCalls(bundles)| ==> invoke(StartCalls(bundles)[k].hook).None?
    ensures StartSpec(bundles, ctxErr, invoke).err.Some? ==> StartSpec(bundles, ctxErr, invoke).after == []
    ensures StartSpec(bundles, ctxErr, invoke).err.None? ==> StartSpec(bundles, ctxErr, invoke).after == StartRecords(bundles)
  {
    FirstDoneAt(ctxErr, 0, |bundles|, |bundles|);
    StartFailuresAreFailingCalls(bundles, invoke);
    NoFailingCalls(StartCalls(bundles), invoke);
  }

  /** A list of calls yields no start error exactly when none of them fails. */
  lemma {:induction false} NoFailingCalls(calls: seq<Call>, invoke: Invocation -> Option<Error>)
    decreases |calls|
    ensures |FailingCalls(calls, invoke)| == 0 <==> forall k :: 0 <= k < |calls| ==> invoke(calls[k].hook).None?
  {
    if |calls| > 0 {
      NoFailingCalls(calls[..|calls| - 1], invoke);
    }
  }

  /** lifecycle_test.go: with the context cancelled before the first bundle,
      no hook is recorded or invoked and the error names the first bundle. */
  lemma CancelledBeforeFirstBundle(bundles: seq<Bundle>, ctxErr: nat -> Option<Error>, invoke: Invocation -> Option<Error>)
    requires |bundles| > 0 && bundles[0].name == "first-bundle"
    requires ctxErr(0) == Some(Error("context canceled"))
    ensures StartSpec(bundles, ctxErr, invoke).after == []
    ensures StartSpec(bundles, ctxErr, invoke).calls == []
    ensures StartSpec(bundles, ctxErr, invoke).err.Some?
    ensures StartSpec(bundles, ctxErr, invoke).err.value.ContextDone?
    ensures BootMessage(StartSpec(bundles, ctxErr, invoke).err.value.err)
            == "boot " + "first-bundle" + " bundle failed: " + "context canceled"
  {
    FirstDoneAt(ctxErr, 0, |bundles|, 0);
    assert bundles[..0] == [];
    var e := BootError("first-bundle", Error("context canceled"));
    assert StartSpec(bundles, ctxErr, invoke).err == Some(ContextDone(e));
  }

  // ---------------------------------------------------------------------------
  // The shutdown pass
  // ---------------------------------------------------------------------------

  function Reverse<T>(s: seq<T>): seq<T>
  {
    if |s| == 0 then [] else Reverse(s[1..]) + [s[0]]
  }

  lemma {:induction false} ReverseAt<T>(s: seq<T>)
    ensures |Reverse(s)| == |s|
    ensures forall k :: 0 <= k < |s| ==> Reverse(s)[k] == s[|s| - 1 - k]
  {
    if |s| > 0 {
      ReverseAt(s[1..]);
    }
  }

  /** The shutdown invocations made for a list of records, in list order. */
  function ShutdownCalls(hooks: seq<HookRecord>): seq<Invocation>
  {
    if |hooks| == 0 then [] else ShutdownCalls(hooks[..|hooks| - 1]) + [hooks[|hooks| - 1].hook]
  }

  /** The shutdown errors invoking a list of records yields, in list order. */
  function ShutdownErrors(hooks: seq<HookRecord>, invoke: Invocation -> Option<Error>): seq<ShutdownError>
  {
    if |hooks| == 0 then []
    else
      var h := hooks[|hooks| - 1];
      ShutdownErrors(hooks[..|hooks| - 1], invoke)
        + (if invoke(h.hook).Some? then [ShutdownError(h.name, invoke(h.hook).value)] else [])
  }

  /** beforeShutdown's result: the context error when the context finishes
      first, otherwise the errors of the records taken in reverse, if any. */
  function ShutdownSpec(hooks: seq<HookRecord>, ctxDone: Option<Error>, invoke: Invocation -> Option<Error>): Option<ShutdownFailure>
  {
    if ctxDone.Some? then Some(ShutdownContextDone(ctxDone.value))
    else if |ShutdownErrors(Reverse(hooks), invoke)| == 0 then None
    else Some(ShutdownHooksFailed(ShutdownErrors(Reverse(hooks), invoke)))
  }

  /** beforeShutdown: invokes the recorded hooks last to first, carrying on
      past failures. ctxDone says whether the context finished before the loop
      did; the loop's invocations are the same either way. */
  method BeforeShutdown(hooks: seq<HookRecord>, ctxDone: Option<Error>, invoke: Invocation -> Option<Error>)
    returns (err: Option<ShutdownFailure>, calls: seq<Invocation>)
    ensures calls == ShutdownCalls(Reverse(hooks))
    ensures |calls| == |hooks| && forall k :: 0 <= k < |hooks| ==> calls[k] == hooks[|hooks| - 1 - k].hook
    ensures err == ShutdownSpec(hooks, ctxDone, invoke)
  {
    var errs: seq<ShutdownError> := [];
    calls := [];
    var i := |hooks|;
    assert hooks[|hooks|..] == [];
    while i > 0
      invariant 0 <= i <= |hooks|
      invariant calls == ShutdownCalls(Reverse(hooks[i..]))
      invariant errs == ShutdownErrors(Reverse(hooks[i..]), invoke)
    {
      i := i - 1;
      var h := hooks[i];
      assert hooks[i..][1..] == hooks[i + 1..];
      assert (Reverse(hooks[i + 1..]) + [h])[..|Reverse(hooks[i + 1..])|] == Reverse(hooks[i + 1..]);
      calls := calls + [h.hook];
      var e := invoke(h.hook);
      if e.Some? {
        errs := errs + [ShutdownError(h.name, e.value)];
      }
    }
    assert hooks[0..] == hooks;
    ShutdownCallsAt(Reverse(hooks));
    ReverseAt(hooks);
    if ctxDone.Some? {
      return Some(ShutdownContextDone(ctxDone.value)), calls;
    }
    if |errs| != 0 {
      return Some(ShutdownHooksFailed(errs)), calls;
    }
    return None, calls;
  }

  lemma {:induction false} ShutdownCallsAt(hooks: seq<HookRecord>)
    ensures |ShutdownCalls(hooks)| == |hooks|
    ensures forall k :: 0 <= k < |hooks| ==> ShutdownCalls(hooks)[k] == hooks[k].hook
  {
    if |hooks| > 0 {
      ShutdownCallsAt(hooks[..|hooks| - 1]);
    }
  }

  /** With the context fine, the shutdown pass fails exactly when some
      recorded hook fails, and then it reports one error per failing hook, last
      record first. */
  lemma ShutdownFailsIffSomeHookFails(hooks: seq<HookRecord>, invoke: Invocation -> Option<Error>)
    ensures ShutdownSpec(hooks, None, invoke).None? <==> forall k :: 0 <= k < |hooks| ==> invoke(hooks[k].hook).None?
  {
    ReverseAt(hooks);
    NoShutdownErrors(Reverse(hooks), invoke);
    var r := Reverse(hooks);
    if forall k :: 0 <= k < |r| ==> invoke(r[k].hook).None? {
      forall k | 0 <= k < |hooks|
        ensures invoke(hooks[k].hook).None?
      {
        assert r[|hooks| - 1 - k] == hooks[k];
      }
    }
  }

  lemma {:induction false} NoShutdownErrors(hooks: seq<HookRecord>, invoke: Invocation -> Option<Error>)
    decreases |hooks|
    ensures |ShutdownErrors(hooks, invoke)| == 0 <==> forall k :: 0 <= k < |hooks| ==> invoke(hooks[k].hook).None?
  {
    if |hooks| > 0 {
      NoShutdownErrors(hooks[..|hooks| - 1], invoke);
    }
  }

  /** A bundle X without dependencies and a bundle Y, each with one hook that
      has both halves, all succeeding: X starts before Y and Y shuts down
      before X. */
  lemma StartOrderShutdownReversed(x: Bundle, y: Bundle, ctxErr: nat -> Option<Error>, invoke: Invocation -> Option<Error>,
                                   sx: Invocation, dx: Invocation, sy: Invocation, dy: Invocation)
    requires x.hooks == [Hook(Some(sx), Some(dx))] && y.hooks == [Hook(Some(sy), Some(dy))]
    requires ctxErr(0).None? && ctxErr(1).None?
    requires invoke(sx).None? && invoke(sy).None?
    ensures StartSpec([x, y], ctxErr, invoke).calls == [Call(x.name, sx), Call(y.name, sy)]
    ensures StartSpec([x, y], ctxErr, invoke).err.None?
    ensures ShutdownCalls(Reverse(StartSpec([x, y], ctxErr, invoke).after)) == [dy, dx]
  {
    FirstDoneAt(ctxErr, 0, 2, 2);
    TwoBundlesTrace(x, y, invoke, sx, dx, sy, dy);
    ReverseTwoRecords(HookRecord(x.name, dx), HookRecord(y.name, dy));
  }

  lemma OneHookTrace(b: Bundle, invoke: Invocation -> Option<Error>, s: Invocation, d: Invocation)
    requires b.hooks == [Hook(Some(s), Some(d))] && invoke(s).None?
    ensures HookCalls(b.name, b.hooks) == [Call(b.name, s)]
    ensures HookRecords(b.name, b.hooks) == [HookRecord(b.name, d)]
    ensures HookFailures(b.name, b.hooks, invoke) == []
  {
    assert b.hooks[..0] == [];
  }

  lemma TwoBundlesTrace(x: Bundle, y: Bundle, invoke: Invocation -> Option<Error>,
                        sx: Invocation, dx: Invocation, sy: Invocation, dy: Invocation)
    requires x.hooks == [Hook(Some(sx), Some(dx))] && y.hooks == [Hook(Some(sy), Some(dy))]
    requires invoke(sx).None? && invoke(sy).None?
    ensures StartCalls([x, y]) == [Call(x.name, sx), Call(y.name, sy)]
    ensures StartRecords([x, y]) == [HookRecord(x.name, dx), HookRecord(y.name, dy)]
    ensures StartFailures([x, y], invoke) == []
  {
    OneHookTrace(x, invoke, sx, dx);
    OneHookTrace(y, invoke, sy, dy);
    TwoBundles(x, y, invoke);
  }

  /** Two bundles contribute their hooks' calls, records and failures in
      bundle order. */
  lemma TwoBundles(x: Bundle, y: Bundle, invoke: Invocation -> Option<Error>)
    ensures StartCalls([x, y]) == HookCalls(x.name, x.hooks) + HookCalls(y.name, y.hooks)
    ensures StartRecords([x, y]) == HookRecords(x.name, x.hooks) + HookRecords(y.name, y.hooks)
    ensures StartFailures([x, y], invoke) == HookFailures(x.name, x.hooks, invoke) + HookFailures(y.name, y.hooks, invoke)
  {
    var xy := [x, y];
    OneBundle(x, invoke);
    assert xy[..1] == [x] && xy[..2] == xy;
    BundleStep(xy, 1, invoke);
  }

  /** A single bundle contributes exactly its hooks' calls, records and
      failures. */
  lemma OneBundle(b: Bundle, invoke: Invocation -> Option<Error>)
    ensures StartCalls([b]) == HookCalls(b.name, b.hooks)
    ensures StartRecords([b]) == HookRecords(b.name, b.hooks)
    ensures StartFailures([b], invoke) == HookFailures(b.name, b.hooks, invoke)
  {
    assert [b][..0] == [];
  }

  lemma ReverseTwoRecords(a: HookRecord, b: HookRecord)
    ensures ShutdownCalls(Reverse([a, b])) == [b.hook, a.hook]
  {
    assert [a, b][1..] == [b];
    assert [b][1..] == [];
    assert Reverse([b]) == Reverse<HookRecord>([]) + [b] == [b];
    assert Reverse([a, b]) == Reverse([b]) + [a] == [b, a];
    assert [b, a][..1] == [b];
    assert [b][..0] == [];
    assert ShutdownCalls([b]) == ShutdownCalls([]) + [b.hook] == [b.hook];
    assert ShutdownCalls([b, a]) == ShutdownCalls([b]) + [a.hook];
  }

  /** lifecycle_test.go: three recorded hooks that all fail give one error
      listing the failures last record first, each in the source's
      "shutdown <name> failed: <cause>" format, joined by "; ". */
  lemma ThreeFailingShutdownHooks(h1: HookRecord, h2: HookRecord, h3: HookRecord, invoke: Invocation -> Option<Error>)
    requires h1.name == "first-shutdown" && h2.name == "second-shutdown" && h3.name == "third-shutdown"
    requires invoke(h1.hook) == Some(Error("first-error"))
    requires invoke(h2.hook) == Some(Error("second-error"))
    requires invoke(h3.hook) == Some(Error("third-error"))
    ensures ShutdownSpec([h1, h2, h3], None, invoke).Some?
    ensures ShutdownFailureMessage(ShutdownSpec([h1, h2, h3], None, invoke).value)
            == "shutdown failed: "
               + (("shutdown " + "third-shutdown" + " failed: " + "third-error") + "; "
                  + ("shutdown " + "second-shutdown" + " failed: " + "second-error") + "; "
                  + ("shutdown " + "first-shutdown" + " failed: " + "first-error"))
  {
    var e3 := ShutdownError(h3.name, invoke(h3.hook).value);
    var e2 := ShutdownError(h2.name, invoke(h2.hook).value);
    var e1 := ShutdownError(h1.name, invoke(h1.hook).value);
    ReverseThree(h1, h2, h3);
    ThreeErrors(h3, h2, h1, invoke);
    assert ShutdownSpec([h1, h2, h3], None, invoke) == Some(ShutdownHooksFailed([e3, e2, e1]));
    ThreeErrorsMessage(e3, e2, e1);
  }

  /** The message of three shutdown errors, joined in order. */
  lemma ThreeErrorsMessage(a: ShutdownError, b: ShutdownError, c: ShutdownError)
    ensures ShutdownFailureMessage(ShutdownHooksFailed([a, b, c]))
            == "shutdown failed: " + (ShutdownErrorMessage(a) + "; " + ShutdownErrorMessage(b) + "; " + ShutdownErrorMessage(c))
  {
    var ma, mb, mc := ShutdownErrorMessage(a), ShutdownErrorMessage(b), ShutdownErrorMessage(c);
    assert ShutdownMessages([a, b, c]) == [ma, mb, mc];
    JoinThree(ma, mb, mc, "; ");
  }

  lemma ReverseThree<T>(a: T, b: T, c: T)
    ensures Reverse([a, b, c]) == [c, b, a]
  {
    assert [a, b, c][1..] == [b, c];
    assert [b, c][1..] == [c];
    assert [c][1..] == [];
    assert Reverse([c]) == [c];
    assert Reverse([b, c]) == [c, b];
  }

  lemma ThreeErrors(a: HookRecord, b: HookRecord, c: HookRecord, invoke: Invocation -> Option<Error>)
    requires invoke(a.hook).Some? && invoke(b.hook).Some? && invoke(c.hook).Some?
    ensures ShutdownErrors([a, b, c], invoke)
            == [ShutdownError(a.name, invoke(a.hook).value), ShutdownError(b.name, invoke(b.hook).value),
                ShutdownError(c.name, invoke(c.hook).value)]
  {
    var ea := ShutdownError(a.name, invoke(a.hook).value);
    var eb := ShutdownError(b.name, invoke(b.hook).value);
    var ec := ShutdownError(c.name, invoke(c.hook).value);
    assert [a, b, c][..2] == [a, b];
    assert [a, b][..1] == [a];
    assert [a][..0] == [];
    assert ShutdownErrors([a], invoke) == ShutdownErrors([], invoke) + [ea];
    assert ShutdownErrors([a, b], invoke) == ShutdownErrors([a], invoke) + [eb];
    assert ShutdownErrors([a, b, c], invoke) == ShutdownErrors([a, b], invoke) + [ec];
  }

  lemma JoinThree(a: string, b: string, c: string, sep: string)
    ensures Join([a, b, c], sep) == a + sep + b + sep + c
  {
    assert [a, b, c][..2] == [a, b];
    assert [a, b][..1] == [a];
    assert Join([a], sep) == a;
    assert Join([a, b], sep) == a + sep + b;
    assert Join([a, b, c], sep) == Join([a, b], sep) + sep + c;
  }

  /** lifecycle_test.go: a context that finishes before the hooks do gives
      the context's error alone, whatever the hooks return. */
  lemma DeadlineBeforeShutdownHooks(hooks: seq<HookRecord>, invoke: Invocation -> Option<Error>)
    ensures ShutdownFailureMessage(ShutdownSpec(hooks, Some(Error("context deadline exceeded")), invoke).value)
            == "shutdown failed: " + "context deadline exceeded"
  {
  }

  // ---------------------------------------------------------------------------
  // Splitting a joined message
  // ---------------------------------------------------------------------------

  /** sep occurs in s starting at position q. */
  predicate OccursAt(s: string, sep: string, q: nat)
  {
    q + |sep| <= |s| && s[q..q + |sep|] == sep
  }

  /** The first position at or after from where sep occurs in s; |s| when it
      does not occur. */
  function Find(s: string, sep: string, from: nat): (i: nat)
    requires |sep| > 0 && from <= |s|
    decreases |s| - from
    ensures from <= i <= |s|
    ensures i < |s| ==> OccursAt(s, sep, i)
    ensures forall q :: from <= q < i ==> !OccursAt(s, sep, q)
  {
    if from == |s| || OccursAt(s, sep, from) then from else Find(s, sep, from + 1)
  }

  /** The pieces of s between the occurrences of sep, left to right
      (strings.Split). */
  function Split(s: string, sep: string): seq<string>
    requires |sep| > 0
    decreases |s|
  {
    var i := Find(s, sep, 0);
    if i < |s| then [s[..i]] + Split(s[i + |sep|..], sep) else [s]
  }

  /** No occurrence of sep starts inside p, not even one that runs on into a
      separator placed after p. */
  ghost predicate SepFree(p: string, sep: string)
  {
    forall q :: 0 <= q < |p| ==> !OccursAt(p + sep, sep, q)
  }

  lemma {:induction false} JoinFront(parts: seq<string>, sep: string)
    requires |parts| >= 2
    decreases |parts|
    ensures Join(parts, sep) == parts[0] + sep + Join(parts[1..], sep)
  {
    var init := parts[..|parts| - 1];
    if |parts| > 2 {
      JoinFront(init, sep);
      assert parts[1..][..|parts| - 2] == init[1..];
    }
  }

  /** Splitting a join gives back the parts, when no part contains the
      separator in a way that could be mistaken for it. */
  lemma {:induction false} SplitJoin(parts: seq<string>, sep: string)
    requires |parts| > 0 && |sep| > 0
    requires forall i :: 0 <= i < |parts| ==> SepFree(parts[i], sep)
    decreases |parts|
    ensures Split(Join(parts, sep), sep) == parts
  {
    var p := parts[0];
    if |parts| == 1 {
      forall q | 0 <= q < |p|
        ensures !OccursAt(p, sep, q)
      {
        assert !OccursAt(p + sep, sep, q);
        if q + |sep| <= |p| {
          assert (p + sep)[q..q + |sep|] == p[q..q + |sep|];
        }
      }
      assert Find(p, sep, 0) == |p|;
    } else {
      JoinFront(parts, sep);
      var rest := Join(parts[1..], sep);
      var s := p + sep + rest;
      forall q | 0 <= q < |p|
        ensures !OccursAt(s, sep, q)
      {
        assert !OccursAt(p + sep, sep, q);
        assert s[q..q + |sep|] == (p + sep)[q..q + |sep|];
      }
      assert s[|p|..|p| + |sep|] == sep;
      assert OccursAt(s, sep, |p|);
      assert Find(s, sep, 0) == |p|;
      assert s[|p| + |sep|..] == rest;
      assert s[..|p|] == p;
      SplitJoin(parts[1..], sep);
      assert parts == [p] + parts[1..];
    }
  }

  /** For the separator "; ", a part is safe as soon as it does not contain
      "; " itself. */
  lemma NoSemicolonSpace(p: string)
    requires forall q :: 0 <= q < |p| ==> !OccursAt(p, "; ", q)
    ensures SepFree(p, "; ")
  {
    forall q | 0 <= q < |p|
      ensures !OccursAt(p + "; ", "; ", q)
    {
      if q + 2 <= |p| {
        assert (p + "; ")[q..q + 2] == p[q..q + 2];
        assert !OccursAt(p, "; ", q);
      } else {
        var t := p + "; ";
        assert q + 1 == |p|;
        assert t[q + 1] == ';';
        assert t[q..q + 2][1] == ';';
        assert "; "[1] == ' ';
        assert t[q..q + 2] != "; ";
      }
    }
  }

  /** errShutdown.Error can be split back into the individual messages, in
      order, when none of them contains "; ". */
  lemma ErrShutdownMessageSplits(errs: seq<ShutdownError>)
    requires |errs| > 0
    requires forall i, q :: 0 <= i < |errs| && 0 <= q < |ShutdownErrorMessage(errs[i])| ==>
               !OccursAt(ShutdownErrorMessage(errs[i]), "; ", q)
    ensures Split(ErrShutdownMessage(errs), "; ") == ShutdownMessages(errs)
  {
    var ms := ShutdownMessages(errs);
    forall i | 0 <= i < |ms|
      ensures SepFree(ms[i], "; ")
    {
      NoSemicolonSpace(ms[i]);
    }
    SplitJoin(ms, "; ");
  }
}
