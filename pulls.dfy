/** `getPR`: the pull-request response projected onto the `PR` record, with
    the `closed` and `merged` flags derived from `state` and `merged_at`. */
module Pulls {
  import opened Js

  datatype User = User(login: string, avatarUrl: string, htmlUrl: string)

  datatype Label = Label(name: string, color: string, description: string)

  /** The fields of the decoded response body that `getPR` reads. `base` and
      `head` are `None` when the object is null or absent, otherwise they
      hold its `ref` and `sha` field respectively; `user`, `mergedBy` and
      `labels` are `None` when absent or null. An error body (for example the
      404 body) has every field `Undefined` or `None`. */
  datatype PullBody = PullBody(
    title: Value,
    state: Value,
    mergedAt: Value,
    base: Option<Value>,
    mergeCommitSha: Value,
    body: Value,
    bodyHtml: Value,
    user: Option<User>,
    mergedBy: Option<User>,
    labels: Option<seq<Label>>,
    head: Option<Value>)

  datatype PR = PR(
    title: Value,
    status: int,
    closed: bool,
    merged: bool,
    base: Value,
    mergeCommitSha: Value,
    body: Value,
    bodyHtml: Value,
    user: Option<User>,
    mergedBy: Option<User>,
    labels: Option<seq<Label>>,
    headSha: Value)

  /** `obj?.field`: undefined when the object is missing. */
  function OptionalField(o: Option<Value>): (r: Value)
    ensures o.None? ==> r == Undefined
    ensures o.Some? ==> r == o.value
  {
    match o
    case None => Undefined
    case Some(v) => v
  }

  /** A merge timestamp as the upstream service sends it: null while the
      pull request is not merged, a non-empty string once it is. */
  predicate WellFormedMergedAt(v: Value) {
    v == Null || (v.Str? && v.s != "")
  }

  function GetPR(response: Response<PullBody>): (pr: PR)
    // The status is the HTTP status, whatever the body says.
    ensures pr.status == response.status
    // closed: `state === 'closed'` and a falsy `merged_at`.
    ensures pr.closed <==> response.body.state == Str("closed") && !Truthy(response.body.mergedAt)
    // merged: `merged_at !== null`, so an absent field also counts as merged.
    ensures pr.merged <==> response.body.mergedAt != Null
    // The plain fields are carried over unchanged.
    ensures pr.title == response.body.title && pr.body == response.body.body
    ensures pr.bodyHtml == response.body.bodyHtml && pr.mergeCommitSha == response.body.mergeCommitSha
    ensures pr.user == response.body.user && pr.mergedBy == response.body.mergedBy
    ensures pr.labels == response.body.labels
    // `data.base?.ref` and `data.head?.sha`: undefined when the object is missing.
    ensures response.body.base.None? ==> pr.base == Undefined
    ensures response.body.base.Some? ==> pr.base == response.body.base.value
    ensures response.body.head.None? ==> pr.headSha == Undefined
    ensures response.body.head.Some? ==> pr.headSha == response.body.head.value
  {
    var data := response.body;
    PR(
      data.title,
      response.status,
      data.state == Str("closed") && !Truthy(data.mergedAt),
      data.mergedAt != Null,
      OptionalField(data.base),
      data.mergeCommitSha,
      data.body,
      data.bodyHtml,
      data.user,
      data.mergedBy,
      data.labels,
      OptionalField(data.head))
  }

  /** With a well-formed `merged_at` the two flags are never both set, and a
      pull request is merged exactly when it carries a timestamp. */
  lemma ClosedAndMergedExclusive(response: Response<PullBody>)
    requires WellFormedMergedAt(response.body.mergedAt)
    ensures !(GetPR(response).closed && GetPR(response).merged)
    ensures GetPR(response).merged <==> response.body.mergedAt.Str?
    ensures GetPR(response).closed <==> response.body.state == Str("closed") && response.body.mergedAt == Null
  {
  }

  /** When the body carries no `merged_at` at all (as an error body does),
      `merged_at !== null` holds, so the pull request reads as merged, and a
      closed one reads as both closed and merged. */
  lemma AbsentMergedAtReadsAsMerged(response: Response<PullBody>)
    requires response.body.mergedAt == Undefined
    ensures GetPR(response).merged
    ensures GetPR(response).closed <==> response.body.state == Str("closed")
  {
  }

  /** An open pull request is never reported closed. */
  lemma OpenIsNotClosed(response: Response<PullBody>)
    requires response.body.state == Str("open")
    ensures !GetPR(response).closed
  {
  }
}
