/** `isContain`: whether a branch already contains a commit, read from the
    upstream comparison `branch...commit`. */
module Containment {
  import opened Js

  /** The `status` field the comparison endpoint reports for a head that is
      `aheadBy` commits ahead of and `behindBy` commits behind the base: the
      upstream service's documented meaning of the field, independent of the
      tracker's code. */
  function ComparisonStatus(aheadBy: nat, behindBy: nat): string {
    if aheadBy == 0 && behindBy == 0 then "identical"
    else if aheadBy == 0 then "behind"
    else if behindBy == 0 then "ahead"
    else "diverged"
  }

  /** The response body is the comparison's `status` field (`None` when the
      body has none, as an error body does). */
  function IsContain(response: Response<Option<string>>): (contained: bool)
    ensures response.status == 404 ==> !contained
    ensures response.status != 404 ==>
              (contained <==> response.body == Some("identical") || response.body == Some("behind"))
  {
    if response.status == 404 then false
    else response.body == Some("identical") || response.body == Some("behind")
  }

  /** For a comparison that succeeded, the branch contains the commit exactly
      when the commit has nothing the branch lacks. */
  lemma ContainedIffNotAhead(status: int, aheadBy: nat, behindBy: nat)
    requires status != 404
    ensures IsContain(Response(status, Some(ComparisonStatus(aheadBy, behindBy)))) <==> aheadBy == 0
  {
  }

  /** `ahead`, `diverged`, an error body without a status, and 404 all give
      false; nothing is raised. */
  lemma NotContainedCases(status: int, body: Option<string>)
    requires status == 404 || body.None? || body == Some("ahead") || body == Some("diverged")
    ensures !IsContain(Response(status, body))
  {
  }
}
