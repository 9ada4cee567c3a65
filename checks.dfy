/** `getDetailedCIStatus`: legacy commit statuses (first per context) followed
    by one normalised entry per check-run. */
module CiStatus {
  import opened Js

  /** One element of the commit-statuses listing (newest first upstream). */
  datatype LegacyStatus = LegacyStatus(
    id: nat, context: string, state: string, targetUrl: string, description: Option<string>)

  /** One element of `check_runs`; `conclusion` is null until the run
      completes, and `outputTitle` is `None` when `output` or its title is
      null or absent. */
  datatype CheckRun = CheckRun(
    id: nat, name: string, status: string, conclusion: Option<string>, htmlUrl: string, outputTitle: Option<string>)

  datatype CIStatus = CIStatus(id: string, name: string, state: string, url: string, description: string)

  /** `x || ''` on a string that may be null. */
  function OrEmpty(x: Option<string>): (r: string)
    ensures x.Some? ==> r == x.value
    ensures x.None? ==> r == ""
  {
    match x
    case None => ""
    case Some(s) => s
  }

  /** The body of a response that is used only when `res.ok`; otherwise the
      group is empty. */
  function OkBody<T>(response: Response<seq<T>>): (r: seq<T>)
    ensures response.Ok() ==> r == response.body
    ensures !response.Ok() ==> r == []
  {
    if response.Ok() then response.body else []
  }

  /** The object pushed for a legacy status. */
  function LegacyEntry(s: LegacyStatus): CIStatus {
    CIStatus(ToText(Num(s.id)), s.context, s.state, s.targetUrl, OrEmpty(s.description))
  }

  /** The normalised state of a check-run. */
  function CheckRunState(run: CheckRun): (state: string)
    ensures state == "pending" || state == "success" || state == "failure" || state == "neutral"
    ensures state == "pending" <==> run.status != "completed"
    ensures state == "success" <==> run.status == "completed" && run.conclusion == Some("success")
    ensures state == "neutral" <==>
              run.status == "completed" && (run.conclusion == Some("skipped") || run.conclusion == Some("neutral"))
  {
    if run.status == "completed" then
      var state := if run.conclusion == Some("success") then "success" else "failure";
      if run.conclusion == Some("skipped") || run.conclusion == Some("neutral") then "neutral" else state
    else
      "pending"
  }

  /** The object pushed for a check-run. */
  function CheckRunEntry(run: CheckRun): CIStatus {
    CIStatus(ToText(Num(run.id)), run.name, CheckRunState(run), run.htmlUrl, OrEmpty(run.outputTitle))
  }

  /** A legacy entry carries the id as its exact decimal text, the context as its
      name, the state and url unchanged, and the description or `''`. */
  lemma LegacyEntryFields(s: LegacyStatus)
    ensures var r := LegacyEntry(s);
            && r.id == Decimal(s.id)
            && r.name == s.context && r.state == s.state && r.url == s.targetUrl
            && (s.description.Some? ==> r.description == s.description.value)
            && (s.description.None? ==> r.description == "")
  {
  }

  /** A check-run entry carries the id as its exact decimal text, the run's name and
      url, one of the four normalised states, and the output title or `''`. */
  lemma CheckRunEntryFields(run: CheckRun)
    ensures var r := CheckRunEntry(run);
            && r.id == Decimal(run.id)
            && r.name == run.name && r.url == run.htmlUrl
            && r.state in {"pending", "success", "failure", "neutral"}
            && (r.state == "pending" <==> run.status != "completed")
            && (run.outputTitle.Some? ==> r.description == run.outputTitle.value)
            && (run.outputTitle.None? ==> r.description == "")
  {
  }

  /** The contexts of the given statuses. */
  function ContextsOf(sts: seq<LegacyStatus>): set<string> {
    if sts == [] then {} else ContextsOf(sts[..|sts| - 1]) + {sts[|sts| - 1].context}
  }

  lemma {:induction false} ContextsOfHas(sts: seq<LegacyStatus>, j: nat)
    requires j < |sts|
    ensures sts[j].context in ContextsOf(sts)
  {
    if j < |sts| - 1 {
      ContextsOfHas(sts[..|sts| - 1], j);
    }
  }

  lemma ContextsStep(sts: seq<LegacyStatus>, i: nat)
    requires i < |sts|
    ensures ContextsOf(sts[..i + 1]) == ContextsOf(sts[..i]) + {sts[i].context}
  {
    assert sts[..i + 1][..i] == sts[..i];
  }

  /** The legacy group: an entry for each status whose context has not been
      seen earlier in the listing. */
  function LegacyEntries(sts: seq<LegacyStatus>): (r: seq<CIStatus>)
    ensures |r| <= |sts|
  {
    if sts == [] then []
    else
      var n := |sts| - 1;
      var prev := LegacyEntries(sts[..n]);
      if sts[n].context in ContextsOf(sts[..n]) then prev
      else prev + [LegacyEntry(sts[n])]
  }

  /** The check-run group: one entry per run, in order. */
  function RunEntries(runs: seq<CheckRun>): (r: seq<CIStatus>)
    ensures |r| == |runs|
    ensures forall i :: 0 <= i < |runs| ==> r[i] == CheckRunEntry(runs[i])
  {
    seq(|runs|, i requires 0 <= i < |runs| => CheckRunEntry(runs[i]))
  }

  /** What `getDetailedCIStatus` returns for the two responses. */
  function Merged(statuses: Response<seq<LegacyStatus>>, checkRuns: Response<seq<CheckRun>>): (r: seq<CIStatus>)
  {
    LegacyEntries(OkBody(statuses)) + RunEntries(OkBody(checkRuns))
  }

  /** The two loops of `getDetailedCIStatus`: `processedContexts` records the
      contexts already pushed. */
  method GetDetailedCIStatus(statuses: Response<seq<LegacyStatus>>, checkRuns: Response<seq<CheckRun>>)
    returns (ciStatuses: seq<CIStatus>)
    ensures ciStatuses == Merged(statuses, checkRuns)
  {
    var sts := OkBody(statuses);
    var runs := OkBody(checkRuns);
    ciStatuses := [];
    var processedContexts: set<string> := {};
    var i := 0;
    while i < |sts|
      invariant 0 <= i <= |sts|
      invariant processedContexts == ContextsOf(sts[..i])
      invariant ciStatuses == LegacyEntries(sts[..i])
    {
      var status := sts[i];
      ContextsStep(sts, i);
      assert sts[..i + 1][..i] == sts[..i];
      if status.context !in processedContexts {
        processedContexts := processedContexts + {status.context};
        ciStatuses := ciStatuses + [CIStatus(ToText(Num(status.id)), status.context, status.state,
                                             status.targetUrl, OrEmpty(status.description))];
      }
      i := i + 1;
    }
    assert sts[..i] == sts;
    var legacy := ciStatuses;
    var j := 0;
    while j < |runs|
      invariant 0 <= j <= |runs|
      invariant ciStatuses == legacy + RunEntries(runs[..j])
    {
      var run := runs[j];
      var state := "pending";
      if run.status == "completed" {
        state := if run.conclusion == Some("success") then "success" else "failure";
        if run.conclusion == Some("skipped") || run.conclusion == Some("neutral") {
          state := "neutral";
        }
      } else {
        state := "pending";
      }
      assert runs[..j + 1] == runs[..j] + [run];
      ciStatuses := ciStatuses + [CIStatus(ToText(Num(run.id)), run.name, state, run.htmlUrl, OrEmpty(run.outputTitle))];
      j := j + 1;
    }
    assert runs[..j] == runs;
  }

  /** `sts[i]` is the first status with its context. */
  predicate FirstOfContext(sts: seq<LegacyStatus>, i: nat) {
    i < |sts| && forall j :: 0 <= j < i ==> sts[j].context != sts[i].context
  }

  lemma LegacyStep(sts: seq<LegacyStatus>)
    requires sts != []
    ensures var n := |sts| - 1;
            LegacyEntries(sts) ==
              if sts[n].context in ContextsOf(sts[..n]) then LegacyEntries(sts[..n])
              else LegacyEntries(sts[..n]) + [LegacyEntry(sts[n])]
  {
  }

  /** Every legacy entry is named after a context of the listing. */
  lemma {:induction false} LegacyNamesAreContexts(sts: seq<LegacyStatus>)
    ensures forall k :: 0 <= k < |LegacyEntries(sts)| ==> LegacyEntries(sts)[k].name in ContextsOf(sts)
  {
    if sts != [] {
      var n := |sts| - 1;
      var init := sts[..n];
      LegacyNamesAreContexts(init);
      LegacyStep(sts);
      assert ContextsOf(sts) == ContextsOf(init) + {sts[n].context};
    }
  }

  /** No two legacy entries share a name. */
  lemma {:induction false} LegacyNamesDistinct(sts: seq<LegacyStatus>)
    ensures forall i, j :: 0 <= i < j < |LegacyEntries(sts)| ==>
              LegacyEntries(sts)[i].name != LegacyEntries(sts)[j].name
  {
    if sts != [] {
      var n := |sts| - 1;
      var init := sts[..n];
      LegacyNamesDistinct(init);
      LegacyNamesAreContexts(init);
      LegacyStep(sts);
    }
  }

  /** Each legacy entry comes from the first (newest) status with its
      context; later statuses of the same context are dropped. */
  lemma {:induction false} LegacyFirstSeenWins(sts: seq<LegacyStatus>, k: nat)
    requires k < |LegacyEntries(sts)|
    ensures exists i: nat :: FirstOfContext(sts, i) && LegacyEntries(sts)[k] == LegacyEntry(sts[i])
  {
    var n := |sts| - 1;
    var init := sts[..n];
    LegacyStep(sts);
    var prev := LegacyEntries(init);
    if k < |prev| {
      assert LegacyEntries(sts)[k] == prev[k];
      LegacyFirstSeenWins(init, k);
      var i: nat :| FirstOfContext(init, i) && prev[k] == LegacyEntry(init[i]);
      assert sts[i] == init[i];
      assert forall j :: 0 <= j < i ==> sts[j] == init[j];
      assert FirstOfContext(sts, i);
    } else {
      assert sts[n].context !in ContextsOf(init);
      assert LegacyEntries(sts)[k] == LegacyEntry(sts[n]);
      forall j | 0 <= j < n
        ensures sts[j].context != sts[n].context
      {
        ContextsOfHas(init, j);
      }
      assert FirstOfContext(sts, n);
    }
  }

  /** The legacy entries come first, at their own positions. */
  lemma MergedLegacyAt(statuses: Response<seq<LegacyStatus>>, checkRuns: Response<seq<CheckRun>>, k: nat)
    requires k < |LegacyEntries(OkBody(statuses))|
    ensures k < |Merged(statuses, checkRuns)|
    ensures Merged(statuses, checkRuns)[k] == LegacyEntries(OkBody(statuses))[k]
  {
  }

  /** After them comes exactly one entry per check-run, in the order of the
      listing: check-runs are never deduplicated. */
  lemma MergedRunAt(statuses: Response<seq<LegacyStatus>>, checkRuns: Response<seq<CheckRun>>, i: nat)
    requires i < |OkBody(checkRuns)|
    ensures |Merged(statuses, checkRuns)| == |LegacyEntries(OkBody(statuses))| + |OkBody(checkRuns)|
    ensures Merged(statuses, checkRuns)[|LegacyEntries(OkBody(statuses))| + i] == CheckRunEntry(OkBody(checkRuns)[i])
  {
    var legacy := LegacyEntries(OkBody(statuses));
    var runs := RunEntries(OkBody(checkRuns));
    assert Merged(statuses, checkRuns) == legacy + runs;
    assert |runs| == |OkBody(checkRuns)| && runs[i] == CheckRunEntry(OkBody(checkRuns)[i]);
    AppendAt(legacy, runs, i);
  }

  lemma AppendAt<T>(a: seq<T>, b: seq<T>, i: nat)
    requires i < |b|
    ensures |a + b| == |a| + |b| && (a + b)[|a| + i] == b[i]
  {
  }

  /** At most one entry per status plus one per check-run, at least one per
      check-run, and nothing at all when both requests fail. */
  lemma MergedBounds(statuses: Response<seq<LegacyStatus>>, checkRuns: Response<seq<CheckRun>>)
    ensures |OkBody(checkRuns)| <= |Merged(statuses, checkRuns)| <= |OkBody(statuses)| + |OkBody(checkRuns)|
    ensures !statuses.Ok() && !checkRuns.Ok() ==> Merged(statuses, checkRuns) == []
  {
    var legacy := LegacyEntries(OkBody(statuses));
    var runs := RunEntries(OkBody(checkRuns));
    assert Merged(statuses, checkRuns) == legacy + runs;
  }

  /** A group whose request failed is empty; the other group is kept. */
  lemma FailedGroupIsEmpty(statuses: Response<seq<LegacyStatus>>, checkRuns: Response<seq<CheckRun>>)
    ensures !statuses.Ok() ==> Merged(statuses, checkRuns) == RunEntries(OkBody(checkRuns))
    ensures !checkRuns.Ok() ==> Merged(statuses, checkRuns) == LegacyEntries(OkBody(statuses))
  {
    var legacy := LegacyEntries(OkBody(statuses));
    var runs := RunEntries(OkBody(checkRuns));
    if !checkRuns.Ok() {
      assert runs == [];
      assert legacy + runs == legacy;
    }
    if !statuses.Ok() {
      assert legacy == [];
      assert legacy + runs == runs;
    }
  }

  /** `r[k]` is the entry named `c`. */
  predicate NameAt(r: seq<CIStatus>, k: nat, c: string) {
    k < |r| && r[k].name == c
  }

  /** Appending a status keeps the earlier entries where they were. */
  lemma LegacyKeepsPrefix(sts: seq<LegacyStatus>, k: nat)
    requires sts != [] && k < |LegacyEntries(sts[..|sts| - 1])|
    ensures k < |LegacyEntries(sts)|
    ensures LegacyEntries(sts)[k] == LegacyEntries(sts[..|sts| - 1])[k]
  {
    LegacyStep(sts);
  }

  /** Every context of the listing gets an entry. */
  lemma {:induction false} ContextListed(sts: seq<LegacyStatus>, c: string)
    requires c in ContextsOf(sts)
    ensures exists k: nat :: NameAt(LegacyEntries(sts), k, c)
  {
    var n := |sts| - 1;
    var init := sts[..n];
    if c in ContextsOf(init) {
      ContextListed(init, c);
      var k: nat :| NameAt(LegacyEntries(init), k, c);
      LegacyKeepsPrefix(sts, k);
      assert NameAt(LegacyEntries(sts), k, c);
    } else {
      LegacyStep(sts);
      assert NameAt(LegacyEntries(sts), |LegacyEntries(init)|, c);
    }
  }

  /** In particular the context of every status in the listing is listed. */
  lemma EveryContextListed(sts: seq<LegacyStatus>, j: nat)
    requires j < |sts|
    ensures exists k: nat :: NameAt(LegacyEntries(sts), k, sts[j].context)
  {
    ContextsOfHas(sts, j);
    ContextListed(sts, sts[j].context);
  }

  /** Two statuses for the same context (newest first) and one check-run give
      two entries: the newest status, then the check-run. */
  lemma DuplicateContextExample(a: LegacyStatus, b: LegacyStatus, run: CheckRun)
    requires a.context == "ci/build" && b.context == "ci/build"
    ensures Merged(Response(200, [a, b]), Response(200, [run])) == [LegacyEntry(a), CheckRunEntry(run)]
  {
    LegacyStep([a]);
    assert [a][..0] == [];
    assert LegacyEntries([a]) == [LegacyEntry(a)];
    LegacyStep([a, b]);
    assert [a, b][..1] == [a];
    assert a in [a];
    assert b.context in ContextsOf([a]);
    assert LegacyEntries([a, b]) == [LegacyEntry(a)];
    assert RunEntries([run]) == [CheckRunEntry(run)];
  }
}
