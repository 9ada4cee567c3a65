/** `getReviews`: the approving reviewers of a pull request, one per login. */
module Reviews {
  import opened Js
  import opened Seqs
  import opened Pulls

  datatype Review = Review(state: string, user: User)

  predicate IsApproval(r: Review) {
    r.state == "APPROVED"
  }

  predicate ApprovedBy(r: Review, login: string) {
    IsApproval(r) && r.user.login == login
  }

  /** The logins of the approving reviews, in input order, repeats included. */
  function ApprovalLogins(rs: seq<Review>): (r: seq<string>)
    ensures |r| <= |rs|
  {
    if rs == [] then []
    else
      var init := rs[..|rs| - 1];
      var last := rs[|rs| - 1];
      ApprovalLogins(init) + (if IsApproval(last) then [last.user.login] else [])
  }

  /** A login is listed exactly when one of its reviews is an approval. */
  lemma {:induction false} ApprovalLoginsHas(rs: seq<Review>, login: string)
    ensures login in ApprovalLogins(rs) <==> exists i :: 0 <= i < |rs| && ApprovedBy(rs[i], login)
  {
    if rs != [] {
      var n := |rs| - 1;
      var init := rs[..n];
      ApprovalLoginsHas(init, login);
      assert forall i :: 0 <= i < n ==> init[i] == rs[i];
      if ApprovedBy(rs[n], login) {
        assert login in ApprovalLogins(rs);
      }
    }
  }

  /** The user of the last approving review by `login`: later approvals
      overwrite earlier ones. */
  function LastApproval(rs: seq<Review>, login: string): (u: User)
    requires login in ApprovalLogins(rs)
    ensures u.login == login
  {
    var init := rs[..|rs| - 1];
    var last := rs[|rs| - 1];
    if ApprovedBy(last, login) then last.user
    else LastApproval(init, login)
  }

  /** `rs[i]` is the last approving review by `login`. */
  predicate LastApprovalAt(rs: seq<Review>, i: nat, login: string) {
    i < |rs| && ApprovedBy(rs[i], login) && forall j :: i < j < |rs| ==> !ApprovedBy(rs[j], login)
  }

  /** The user kept is the one of the last approving review by that login. */
  lemma {:induction false} LastApprovalWins(rs: seq<Review>, login: string)
    requires login in ApprovalLogins(rs)
    ensures exists i: nat :: LastApprovalAt(rs, i, login) && rs[i].user == LastApproval(rs, login)
  {
    var n := |rs| - 1;
    var init := rs[..n];
    if ApprovedBy(rs[n], login) {
      assert LastApprovalAt(rs, n, login);
    } else {
      LastApprovalWins(init, login);
      var i: nat :| LastApprovalAt(init, i, login) && init[i].user == LastApproval(init, login);
      assert forall j :: 0 <= j < n ==> rs[j] == init[j];
      assert LastApprovalAt(rs, i, login);
    }
  }

  /** The reviewers `getReviews` reports for a successful response: one per
      approving login, ordered by each login's first approval, each carrying
      the user object of that login's last approval. */
  function Approvers(rs: seq<Review>): (r: seq<User>)
    ensures |r| == |Dedup(ApprovalLogins(rs))|
    ensures forall i :: 0 <= i < |r| ==> r[i].login == Dedup(ApprovalLogins(rs))[i]
  {
    var logins := Dedup(ApprovalLogins(rs));
    seq(|logins|, i requires 0 <= i < |logins| => LastApproval(rs, logins[i]))
  }

  /** A JavaScript `Map` from login to user: its keys in insertion order and
      its entries. */
  datatype Tally = Tally(keys: seq<string>, users: map<string, User>)

  /** `map.set(login, user)`: a new key goes to the end of the key order, a
      key already present keeps its place and takes the new value. */
  function SetUser(t: Tally, login: string, user: User): (r: Tally)
    ensures login in r.users && r.users[login] == user
    ensures forall k :: k != login && k in t.users ==> k in r.users && r.users[k] == t.users[k]
    ensures |t.keys| <= |r.keys| <= |t.keys| + 1 && r.keys[..|t.keys|] == t.keys
    ensures (forall k :: k in t.users <==> k in t.keys) ==> (forall k :: k in r.users <==> k in r.keys)
  {
    Tally(if login in t.users then t.keys else t.keys + [login], t.users[login := user])
  }

  /** The map after the `forEach` has visited `rs`: every approving review
      sets its reviewer's login. */
  function Collect(rs: seq<Review>): (t: Tally)
    ensures forall j :: 0 <= j < |t.keys| ==> t.keys[j] in t.users
  {
    if rs == [] then Tally([], map[])
    else
      var t := Collect(rs[..|rs| - 1]);
      var last := rs[|rs| - 1];
      if IsApproval(last) then SetUser(t, last.user.login, last.user) else t
  }

  /** Setting a login in a map whose key order is `Dedup(logins)` gives the
      key order `Dedup(logins + [login])`, and the keys stay the entries. */
  lemma KeyOrderStep(logins: seq<string>, t: Tally, login: string, user: User)
    requires t.keys == Dedup(logins)
    requires forall k :: k in t.users <==> k in t.keys
    ensures SetUser(t, login, user).keys == Dedup(logins + [login])
    ensures forall k :: k in SetUser(t, login, user).users <==> k in SetUser(t, login, user).keys
  {
    DedupSnoc(logins, login);
    DedupHas(logins, login);
  }

  /** The map's key order is the approving logins, each once, in order of
      first approval; its keys are exactly those logins. */
  lemma {:induction false} CollectKeys(rs: seq<Review>)
    ensures Collect(rs).keys == Dedup(ApprovalLogins(rs))
    ensures forall k :: k in Collect(rs).users <==> k in Collect(rs).keys
  {
    if rs != [] {
      var init := rs[..|rs| - 1];
      var last := rs[|rs| - 1];
      CollectKeys(init);
      if IsApproval(last) {
        KeyOrderStep(ApprovalLogins(init), Collect(init), last.user.login, last.user);
      } else {
        assert ApprovalLogins(rs) == ApprovalLogins(init) + [];
        assert ApprovalLogins(rs) == ApprovalLogins(init);
      }
    }
  }

  /** Each login maps to the user of its last approval. */
  lemma {:induction false} CollectUsers(rs: seq<Review>)
    ensures forall k :: k in Collect(rs).users ==>
              k in ApprovalLogins(rs) && Collect(rs).users[k] == LastApproval(rs, k)
  {
    if rs != [] {
      var init := rs[..|rs| - 1];
      var last := rs[|rs| - 1];
      CollectUsers(init);
      var t := Collect(init);
      forall k | k in Collect(rs).users
        ensures k in ApprovalLogins(rs) && Collect(rs).users[k] == LastApproval(rs, k)
      {
        if !ApprovedBy(last, k) {
          assert k in t.users;
          assert ApprovalLogins(rs) == ApprovalLogins(init) + (if IsApproval(last) then [last.user.login] else []);
        }
      }
    }
  }

  /** The `forEach` over the reviews fills a JavaScript `Map`, here the pair
      of its key order `keys` and its entries `approvers`. */
  method GetReviews(response: Response<seq<Review>>) returns (users: seq<User>)
    ensures !response.Ok() ==> users == []
    ensures response.Ok() ==> users == Approvers(response.body)
  {
    if !response.Ok() {
      return [];
    }
    var data := response.body;
    var keys: seq<string> := [];
    var approvers: map<string, User> := map[];
    var i := 0;
    while i < |data|
      invariant 0 <= i <= |data|
      invariant Tally(keys, approvers) == Collect(data[..i])
    {
      var review := data[i];
      assert data[..i + 1][..i] == data[..i];
      if review.state == "APPROVED" {
        if review.user.login !in approvers {
          keys := keys + [review.user.login];
        }
        approvers := approvers[review.user.login := review.user];
      }
      i := i + 1;
    }
    assert data[..i] == data;
    CollectKeys(data);
    CollectUsers(data);
    users := seq(|keys|, j requires 0 <= j < |keys| => approvers[keys[j]]);
  }

  /** No login is reported twice. */
  lemma ApproversDistinct(rs: seq<Review>)
    ensures forall i, j :: 0 <= i < j < |Approvers(rs)| ==> Approvers(rs)[i].login != Approvers(rs)[j].login
  {
    var logins := Dedup(ApprovalLogins(rs));
    DedupNoDup(ApprovalLogins(rs));
    assert forall i :: 0 <= i < |logins| ==> Approvers(rs)[i].login == logins[i];
  }

  /** Every approving reviewer is reported. */
  lemma EveryApproverReported(rs: seq<Review>, i: nat)
    requires i < |rs| && IsApproval(rs[i])
    ensures exists k :: 0 <= k < |Approvers(rs)| && Approvers(rs)[k].login == rs[i].user.login
  {
    var logins := Dedup(ApprovalLogins(rs));
    var login := rs[i].user.login;
    ApprovalLoginsHas(rs, login);
    DedupHas(ApprovalLogins(rs), login);
    var k :| 0 <= k < |logins| && logins[k] == login;
    assert Approvers(rs)[k].login == login;
  }

  /** Only approving reviewers are reported, each with the user object of
      their last approval. */
  lemma ReportedAreLastApprovals(rs: seq<Review>, k: nat)
    requires k < |Approvers(rs)|
    ensures exists i: nat :: LastApprovalAt(rs, i, Approvers(rs)[k].login) && rs[i].user == Approvers(rs)[k]
  {
    var logins := Dedup(ApprovalLogins(rs));
    LastApprovalWins(rs, logins[k]);
  }

  /** Reviews that are not approvals do not change the result. */
  lemma NonApprovalsIgnored(rs: seq<Review>, extra: Review)
    requires !IsApproval(extra)
    ensures Approvers(rs + [extra]) == Approvers(rs)
  {
    var rs' := rs + [extra];
    assert rs'[..|rs'| - 1] == rs;
    assert ApprovalLogins(rs') == ApprovalLogins(rs);
    var logins := Dedup(ApprovalLogins(rs));
    assert forall i :: 0 <= i < |logins| ==> LastApproval(rs', logins[i]) == LastApproval(rs, logins[i]);
  }
}
