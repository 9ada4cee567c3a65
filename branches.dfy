/** The universe of branches offered for containment checks
    (`defaultBranches` and `getAllBranches`): a fixed default list merged with
    the newest release branches found in the upstream ref listing. */
module Branches {
  import opened Js
  import opened Seqs

  /** Always offered, in this order, whatever the upstream listing says. */
  const DefaultBranches: seq<string> :=
    ["staging-next", "master", "nixos-unstable-small", "nixpkgs-unstable", "nixos-unstable"]

  const HeadsPrefix: string := "refs/heads/"

  /** How many discovered release branches are kept. */
  const MaxReleases: nat := 4

  // ---------------------------------------------------------------------
  // `ref.replace('refs/heads/', '')`: a string pattern replaces only its
  // first occurrence, wherever it is.

  predicate OccursAt(s: string, pat: string, k: nat) {
    k + |pat| <= |s| && s[k..k + |pat|] == pat
  }

  /** The first position at or after `from` where `pat` occurs in `s`. */
  function IndexOf(s: string, pat: string, from: nat): (r: Option<nat>)
    ensures r.Some? ==> from <= r.value && OccursAt(s, pat, r.value)
    ensures r.Some? ==> forall k :: from <= k < r.value ==> !OccursAt(s, pat, k)
    ensures r.None? ==> forall k :: from <= k ==> !OccursAt(s, pat, k)
    decreases |s| - from
  {
    if from + |pat| > |s| then None
    else if OccursAt(s, pat, from) then Some(from)
    else IndexOf(s, pat, from + 1)
  }

  /** `pat` occurs at `i` and nowhere before. */
  predicate FirstOccurrence(s: string, pat: string, i: nat) {
    OccursAt(s, pat, i) && forall k :: 0 <= k < i ==> !OccursAt(s, pat, k)
  }

  /** `ref.replace('refs/heads/', '')`: cutting out the first occurrence is
      undone by putting the pattern back where it was. */
  function StripHeads(ref: string): (r: string)
    ensures (forall k :: !OccursAt(ref, HeadsPrefix, k)) ==> r == ref
    ensures forall i: nat :: FirstOccurrence(ref, HeadsPrefix, i) ==>
              |r| + |HeadsPrefix| == |ref| && r[..i] + HeadsPrefix + r[i..] == ref
  {
    match IndexOf(ref, HeadsPrefix, 0)
    case None => ref
    case Some(i) =>
      var r := ref[..i] + ref[i + |HeadsPrefix|..];
      assert r[..i] == ref[..i] && r[i..] == ref[i + |HeadsPrefix|..];
      assert ref == ref[..i] + ref[i..i + |HeadsPrefix|] + ref[i + |HeadsPrefix|..];
      r
  }

  /** A full ref name `refs/heads/<name>` becomes `<name>`. */
  lemma StripHeadsOfHeadRef(name: string)
    ensures StripHeads(HeadsPrefix + name) == name
  {
    var ref := HeadsPrefix + name;
    assert OccursAt(ref, HeadsPrefix, 0);
    assert ref[|HeadsPrefix|..] == name;
  }

  /** A ref without the pattern anywhere is left as it is. */
  lemma StripHeadsWithoutPattern(ref: string)
    requires forall k :: !OccursAt(ref, HeadsPrefix, k)
    ensures StripHeads(ref) == ref
  {
  }

  // ---------------------------------------------------------------------
  // The release-name pattern `^(nixos|nixpkgs)-\d+\.\d+(-small|-darwin)?$`.

  predicate IsDigit(c: char) {
    '0' <= c <= '9'
  }

  /** `\d+` */
  predicate IsDigits(s: string) {
    |s| > 0 && forall i :: 0 <= i < |s| ==> IsDigit(s[i])
  }

  /** `\d+\.\d+` with the dot at position `k`. */
  predicate DotAt(v: string, k: nat) {
    k < |v| && v[k] == '.' && IsDigits(v[..k]) && IsDigits(v[k + 1..])
  }

  /** `\d+\.\d+` */
  predicate IsVersion(v: string) {
    exists k: nat | k < |v| :: DotAt(v, k)
  }

  predicate HasPrefix(s: string, p: string) {
    |p| <= |s| && s[..|p|] == p
  }

  predicate HasSuffix(s: string, x: string) {
    |x| <= |s| && s[|s| - |x|..] == x
  }

  /** `\d+\.\d+(-small|-darwin)?$` */
  predicate IsVersionTail(t: string) {
    || IsVersion(t)
    || (HasSuffix(t, "-small") && IsVersion(t[..|t| - 6]))
    || (HasSuffix(t, "-darwin") && IsVersion(t[..|t| - 7]))
  }

  /** `^(nixos|nixpkgs)-\d+\.\d+(-small|-darwin)?$` */
  predicate IsReleaseName(name: string)
    ensures IsReleaseName(name) ==> 9 <= |name| && (name[..6] == "nixos-" || name[..8] == "nixpkgs-")
  {
    || (HasPrefix(name, "nixos-") && IsVersionTail(name[6..]))
    || (HasPrefix(name, "nixpkgs-") && IsVersionTail(name[8..]))
  }

  lemma NoDotNoVersion(v: string)
    requires '.' !in v
    ensures !IsVersion(v)
  {
  }

  lemma {:induction false} NoDotNoTail(t: string)
    requires '.' !in t
    ensures !IsVersionTail(t)
  {
    NoDotNoVersion(t);
    if |t| >= 6 {
      assert forall i :: 0 <= i < |t| - 6 ==> t[..|t| - 6][i] == t[i];
      NoDotNoVersion(t[..|t| - 6]);
    }
    if |t| >= 7 {
      assert forall i :: 0 <= i < |t| - 7 ==> t[..|t| - 7][i] == t[i];
      NoDotNoVersion(t[..|t| - 7]);
    }
  }

  /** A name without a dot has no version part, so it never matches. */
  lemma {:induction false} NoDotNoRelease(name: string)
    requires '.' !in name
    ensures !IsReleaseName(name)
  {
    if |name| >= 6 {
      assert forall i :: 0 <= i < |name| - 6 ==> name[6..][i] == name[i + 6];
      NoDotNoTail(name[6..]);
    }
    if |name| >= 8 {
      assert forall i :: 0 <= i < |name| - 8 ==> name[8..][i] == name[i + 8];
      NoDotNoTail(name[8..]);
    }
  }

  /** None of the default branches has the release shape. */
  lemma DefaultsAreNotReleases()
    ensures forall b :: b in DefaultBranches ==> !IsReleaseName(b)
  {
    forall b | b in DefaultBranches
      ensures !IsReleaseName(b)
    {
      NoDotNoRelease(b);
    }
  }

  lemma VersionExamples()
    ensures DotAt("24.05", 2) && DotAt("24.11", 2)
  {
    assert "24.05"[..2] == "24" && "24.05"[3..] == "05";
    assert "24.11"[..2] == "24" && "24.11"[3..] == "11";
  }

  /** A plain release name matches. */
  lemma PlainReleaseExample()
    ensures IsReleaseName("nixos-24.05")
  {
    VersionExamples();
    var a := "nixos-24.05";
    assert a[..6] == "nixos-" && a[6..] == "24.05";
  }

  /** A `-small` release name matches. */
  lemma SmallReleaseExample()
    ensures IsReleaseName("nixos-24.11-small")
  {
    VersionExamples();
    var b := "nixos-24.11-small";
    assert b[..6] == "nixos-" && b[6..] == "24.11-small";
    assert HasSuffix("24.11-small", "-small") && "24.11-small"[..5] == "24.11";
  }

  /** A `-darwin` release name of the `nixpkgs` family matches. */
  lemma DarwinReleaseExample()
    ensures IsReleaseName("nixpkgs-24.11-darwin")
  {
    VersionExamples();
    var c := "nixpkgs-24.11-darwin";
    assert c[..8] == "nixpkgs-" && c[8..] == "24.11-darwin";
    assert HasSuffix("24.11-darwin", "-darwin") && "24.11-darwin"[..5] == "24.11";
  }

  /** `.filter(name => pattern.test(name))` */
  function ReleaseNames(names: seq<string>): (r: seq<string>)
    ensures forall i :: 0 <= i < |r| ==> IsReleaseName(r[i]) && r[i] in names
    ensures forall i :: 0 <= i < |names| && IsReleaseName(names[i]) ==> names[i] in r
    ensures |r| <= |names|
  {
    if names == [] then []
    else
      var rest := ReleaseNames(names[1..]);
      assert forall i :: 1 <= i < |names| ==> names[i] == names[1..][i - 1];
      if IsReleaseName(names[0]) then [names[0]] + rest else rest
  }

  /** The filter distributes over concatenation: it keeps every matching
      name once per occurrence, in the order of the input. */
  lemma {:induction false} ReleaseNamesAppend(a: seq<string>, b: seq<string>)
    ensures ReleaseNames(a + b) == ReleaseNames(a) + ReleaseNames(b)
  {
    if a == [] {
      assert a + b == b;
    } else {
      var ab := a + b;
      assert ab != [] && ab[0] == a[0] && ab[1..] == a[1..] + b;
      ReleaseNamesAppend(a[1..], b);
    }
  }

  /** A single name is kept exactly when it matches. */
  lemma ReleaseNamesSingle(name: string)
    ensures ReleaseNames([name]) == if IsReleaseName(name) then [name] else []
  {
  }

  // ---------------------------------------------------------------------
  // `.sort((a, b) => b.localeCompare(a, undefined, { numeric: true }))`.
  // The collation itself is a parameter: `localeCompare(a, b)` is negative
  // when `a` collates before `b`. The sort is stable, as JavaScript's is.

  /** The comparator `(a, b) => b.localeCompare(a)` is negative: `a` goes first. */
  predicate SortsBefore(localeCompare: (string, string) -> int, a: string, b: string)
    ensures Antisymmetric(localeCompare) && SortsBefore(localeCompare, a, b) ==> localeCompare(a, b) > 0
  {
    localeCompare(b, a) < 0
  }

  /** Reversing the operands of a collation reverses a strict answer. */
  ghost predicate Antisymmetric(localeCompare: (string, string) -> int) {
    forall a, b :: localeCompare(a, b) < 0 ==> localeCompare(b, a) > 0
  }

  /** Each element collates at or after its successor. */
  predicate Descending(localeCompare: (string, string) -> int, s: seq<string>) {
    forall i :: 0 <= i < |s| - 1 ==> localeCompare(s[i], s[i + 1]) >= 0
  }

  /** Place `x` before the first element it sorts before, i.e. after every
      element it ties with. */
  function Insert(localeCompare: (string, string) -> int, x: string, s: seq<string>): (r: seq<string>)
    ensures multiset(r) == multiset(s) + multiset{x}
    ensures |r| == |s| + 1
    ensures r[0] == x || (s != [] && r[0] == s[0])
  {
    if s == [] then [x]
    else if SortsBefore(localeCompare, x, s[0]) then [x] + s
    else
      assert s == [s[0]] + s[1..];
      [s[0]] + Insert(localeCompare, x, s[1..])
  }

  function SortDescending(localeCompare: (string, string) -> int, xs: seq<string>): (r: seq<string>)
    ensures multiset(r) == multiset(xs)
    ensures |r| == |xs|
  {
    if xs == [] then []
    else
      assert xs == xs[..|xs| - 1] + [xs[|xs| - 1]];
      Insert(localeCompare, xs[|xs| - 1], SortDescending(localeCompare, xs[..|xs| - 1]))
  }

  lemma {:induction false} InsertKeepsDescending(localeCompare: (string, string) -> int, x: string, s: seq<string>)
    requires Antisymmetric(localeCompare)
    requires Descending(localeCompare, s)
    ensures Descending(localeCompare, Insert(localeCompare, x, s))
  {
    if s != [] && !SortsBefore(localeCompare, x, s[0]) {
      InsertKeepsDescending(localeCompare, x, s[1..]);
    } else if s != [] {
      assert localeCompare(s[0], x) < 0;
      assert localeCompare(x, s[0]) > 0;
    }
  }

  /** Under a consistent collation the sort output is in descending order. */
  lemma {:induction false} SortIsDescending(localeCompare: (string, string) -> int, xs: seq<string>)
    requires Antisymmetric(localeCompare)
    ensures Descending(localeCompare, SortDescending(localeCompare, xs))
  {
    if xs != [] {
      SortIsDescending(localeCompare, xs[..|xs| - 1]);
      InsertKeepsDescending(localeCompare, xs[|xs| - 1], SortDescending(localeCompare, xs[..|xs| - 1]));
    }
  }

  // ---------------------------------------------------------------------
  // The pipeline and the merge.

  /** `.map(b => b.ref.replace('refs/heads/', ''))` */
  function StripAll(refs: seq<string>): (r: seq<string>)
    ensures |r| == |refs|
    ensures forall i :: 0 <= i < |refs| ==> r[i] == StripHeads(refs[i])
  {
    seq(|refs|, i requires 0 <= i < |refs| => StripHeads(refs[i]))
  }

  /** The sorted release names before the cut to `MaxReleases`. */
  function SortedReleases(localeCompare: (string, string) -> int, refs: seq<string>): (r: seq<string>)
    ensures multiset(r) == multiset(ReleaseNames(StripAll(refs)))
    ensures Antisymmetric(localeCompare) ==> Descending(localeCompare, r)
  {
    var xs := ReleaseNames(StripAll(refs));
    assert Antisymmetric(localeCompare) ==> Descending(localeCompare, SortDescending(localeCompare, xs)) by {
      if Antisymmetric(localeCompare) {
        SortIsDescending(localeCompare, xs);
      }
    }
    SortDescending(localeCompare, xs)
  }

  /** Whatever the sort outputs came from its input. */
  lemma SortedFromInput(localeCompare: (string, string) -> int, xs: seq<string>, i: nat)
    requires i < |SortDescending(localeCompare, xs)|
    ensures SortDescending(localeCompare, xs)[i] in xs
  {
    var r := SortDescending(localeCompare, xs);
    assert r[i] in multiset(r);
  }

  /** `nixosBranches`: the newest `MaxReleases` release names. */
  function NewestReleases(localeCompare: (string, string) -> int, refs: seq<string>): (r: seq<string>)
    ensures |r| <= MaxReleases
    ensures forall i :: 0 <= i < |r| ==> IsReleaseName(r[i]) && r[i] in StripAll(refs)
    // `.slice(0, 4)`: exactly the first four (or fewer) names of the sorted list.
    ensures |r| == if |SortedReleases(localeCompare, refs)| < MaxReleases
                   then |SortedReleases(localeCompare, refs)| else MaxReleases
    ensures r == SortedReleases(localeCompare, refs)[..|r|]
  {
    var sorted := SortedReleases(localeCompare, refs);
    var names := ReleaseNames(StripAll(refs));
    var k := if |sorted| < MaxReleases then |sorted| else MaxReleases;
    var r := sorted[..k];
    forall i | 0 <= i < |r|
      ensures IsReleaseName(r[i]) && r[i] in StripAll(refs)
    {
      assert r[i] == sorted[i];
      SortedFromInput(localeCompare, names, i);
      var j :| 0 <= j < |names| && names[j] == sorted[i];
    }
    r
  }

  /** `getAllBranches`: defaults on any failure, else the defaults merged
      with the newest release names and deduplicated. */
  function GetAllBranches(localeCompare: (string, string) -> int, fetched: Attempt<seq<string>>): (r: seq<string>)
    ensures |DefaultBranches| <= |r| && r[..|DefaultBranches|] == DefaultBranches
    ensures NoDup(r)
    ensures fetched.Threw? || !fetched.response.Ok() ==> r == DefaultBranches
    ensures forall i :: |DefaultBranches| <= i < |r| ==>
              fetched.Returned? && fetched.response.Ok() &&
              r[i] in NewestReleases(localeCompare, fetched.response.body) && r[i] !in DefaultBranches
  {
    DedupOfNoDup(DefaultBranches);
    match fetched
    case Threw => DefaultBranches
    case Returned(response) =>
      if !response.Ok() then DefaultBranches
      else
        var newest := NewestReleases(localeCompare, response.body);
        DedupPrefix(DefaultBranches, newest);
        DedupTail(DefaultBranches, newest);
        DedupNoDup(DefaultBranches + newest);
        Dedup(DefaultBranches + newest)
  }

  // ---------------------------------------------------------------------
  // Properties of the branch universe.

  /** Every default branch is offered, on success and on every failure. */
  lemma DefaultsAlwaysOffered(localeCompare: (string, string) -> int, fetched: Attempt<seq<string>>)
    ensures forall b :: b in DefaultBranches ==> b in GetAllBranches(localeCompare, fetched)
  {
    var r := GetAllBranches(localeCompare, fetched);
    assert DefaultBranches == r[..|DefaultBranches|];
  }

  /** On success the result is exactly the defaults followed by the
      deduplicated newest releases: no release name is lost to the merge. */
  lemma MergeOnSuccess(localeCompare: (string, string) -> int, refs: seq<string>, status: int)
    requires 200 <= status <= 299
    ensures GetAllBranches(localeCompare, Returned(Response(status, refs)))
            == DefaultBranches + Dedup(NewestReleases(localeCompare, refs))
  {
    var newest := NewestReleases(localeCompare, refs);
    assert GetAllBranches(localeCompare, Returned(Response(status, refs))) == Dedup(DefaultBranches + newest);
    DefaultsAreNotReleases();
    DedupDisjoint(DefaultBranches, newest);
    DedupOfNoDup(DefaultBranches);
  }

  /** Every one of the newest release names is offered after a successful
      listing. */
  lemma NewestReleasesOffered(localeCompare: (string, string) -> int, refs: seq<string>, status: int, i: nat)
    requires 200 <= status <= 299
    requires i < |NewestReleases(localeCompare, refs)|
    ensures NewestReleases(localeCompare, refs)[i] in GetAllBranches(localeCompare, Returned(Response(status, refs)))
  {
    var newest := NewestReleases(localeCompare, refs);
    MergeOnSuccess(localeCompare, refs, status);
    DedupHas(newest, newest[i]);
  }

  /** Anything beyond the defaults is a release name with the ref prefix
      stripped, among the first `MaxReleases` of the descending sort. */
  lemma AddedBranchesAreNewestReleases(localeCompare: (string, string) -> int, fetched: Attempt<seq<string>>, b: string)
    requires b in GetAllBranches(localeCompare, fetched) && b !in DefaultBranches
    ensures fetched.Returned? && fetched.response.Ok()
    ensures IsReleaseName(b)
    ensures exists ref :: ref in fetched.response.body && StripHeads(ref) == b
    ensures var sorted := SortedReleases(localeCompare, fetched.response.body);
            exists k :: 0 <= k < MaxReleases && k < |sorted| && sorted[k] == b
  {
    var r := GetAllBranches(localeCompare, fetched);
    var i :| 0 <= i < |r| && r[i] == b;
    assert r[..|DefaultBranches|] == DefaultBranches;
    var refs := fetched.response.body;
    var newest := NewestReleases(localeCompare, refs);
    var k :| 0 <= k < |newest| && newest[k] == b;
    var j :| 0 <= j < |refs| && StripAll(refs)[j] == b;
    assert refs[j] in refs;
  }

  /** The result never exceeds the defaults plus `MaxReleases` names. */
  lemma BranchCountBound(localeCompare: (string, string) -> int, fetched: Attempt<seq<string>>)
    ensures |GetAllBranches(localeCompare, fetched)| <= |DefaultBranches| + MaxReleases
  {
    if fetched.Returned? && fetched.response.Ok() {
      MergeOnSuccess(localeCompare, fetched.response.body, fetched.response.status);
    }
  }
}
