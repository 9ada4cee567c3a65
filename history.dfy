/** The locally stored history of looked-up pull requests
    (`getHistoryList`, `saveHistory`, `getHistoryTitle`, `deleteHistory`). */
module History {
  import opened Js

  datatype Entry = Entry(pr: int, title: string, mergeCommit: string)

  /** `list.some(h => h.pr === pr)`, scanning from the front. */
  predicate HasPr(list: seq<Entry>, pr: int)
    ensures HasPr(list, pr) <==> exists i :: 0 <= i < |list| && list[i].pr == pr
  {
    if list == [] then false
    else
      assert forall i :: 1 <= i < |list| ==> list[i] == list[1..][i - 1];
      list[0].pr == pr || HasPr(list[1..], pr)
  }

  /** No two entries share a pull-request number. */
  predicate UniquePrs(list: seq<Entry>) {
    forall i, j :: 0 <= i < j < |list| ==> list[i].pr != list[j].pr
  }

  /** `list[i]` is the first entry for `pr`. */
  predicate FirstWithPr(list: seq<Entry>, i: nat, pr: int) {
    i < |list| && list[i].pr == pr && forall j :: 0 <= j < i ==> list[j].pr != pr
  }

  /** The list after saving `h`: appended only when its number is new. */
  function Saved(list: seq<Entry>, h: Entry): (r: seq<Entry>)
    ensures HasPr(r, h.pr)
  {
    if HasPr(list, h.pr) then list
    else
      assert (list + [h])[|list|] == h;
      list + [h]
  }

  /** `history.filter(item => item.pr !== pr)` */
  function WithoutPr(list: seq<Entry>, pr: int): (r: seq<Entry>)
    ensures !HasPr(r, pr)
    ensures forall e :: e in r <==> e in list && e.pr != pr
    ensures |r| <= |list|
  {
    if list == [] then []
    else
      var rest := WithoutPr(list[1..], pr);
      assert forall e :: e in list <==> e == list[0] || e in list[1..];
      if list[0].pr != pr then [list[0]] + rest else rest
  }

  /** `history.find(item => item.pr === pr)?.title`, or `''` when absent. */
  function FirstTitle(list: seq<Entry>, pr: int): (title: string)
    ensures !HasPr(list, pr) ==> title == ""
    ensures forall i: nat :: FirstWithPr(list, i, pr) ==> title == list[i].title
  {
    if list == [] then ""
    else if list[0].pr == pr then list[0].title
    else
      var t := FirstTitle(list[1..], pr);
      assert forall i: nat :: FirstWithPr(list, i, pr) ==> i > 0 && FirstWithPr(list[1..], i - 1, pr);
      assert HasPr(list, pr) ==> HasPr(list[1..], pr);
      t
  }

  /** The browser's `localStorage` item `history`: `None` when it was never
      written (or holds the empty string), otherwise the decoded list. */
  class HistoryStore {
    var stored: Option<seq<Entry>>

    constructor (initial: Option<seq<Entry>>)
      ensures stored == initial
    {
      stored := initial;
    }

    /** `getHistoryList`: an absent item reads as the empty list. */
    function GetHistoryList(): (list: seq<Entry>)
      reads this
      ensures stored.None? ==> list == []
      ensures stored.Some? ==> list == stored.value
    {
      match stored
      case None => []
      case Some(list) => list
    }

    /** `getHistoryTitle`: the title of the first entry for `pr`, or `''`. */
    function GetHistoryTitle(pr: int): (title: string)
      reads this
      ensures !HasPr(GetHistoryList(), pr) ==> title == ""
      ensures forall i: nat :: FirstWithPr(GetHistoryList(), i, pr) ==> title == GetHistoryList()[i].title
    {
      FirstTitle(GetHistoryList(), pr)
    }

    /** `saveHistory`: writes back only when the entry was appended. */
    method SaveHistory(history: Entry)
      modifies this
      ensures HasPr(old(GetHistoryList()), history.pr) ==> stored == old(stored)
      ensures !HasPr(old(GetHistoryList()), history.pr) ==> stored == Some(old(GetHistoryList()) + [history])
      ensures GetHistoryList() == Saved(old(GetHistoryList()), history)
    {
      var historyList := GetHistoryList();
      if !HasPr(historyList, history.pr) {
        historyList := historyList + [history];
        stored := Some(historyList);
      }
    }

    /** `deleteHistory`: always writes the filtered list back. */
    method DeleteHistory(pr: int)
      modifies this
      ensures stored == Some(WithoutPr(old(GetHistoryList()), pr))
    {
      var history := GetHistoryList();
      var newHistory := WithoutPr(history, pr);
      stored := Some(newHistory);
    }
  }

  // -----------------------------------------------------------------------
  // Properties of the history operations.

  /** Saving the same entry twice is the same as saving it once. */
  lemma SaveIdempotent(list: seq<Entry>, h: Entry)
    ensures Saved(Saved(list, h), h) == Saved(list, h)
  {
  }

  /** Saving keeps the list free of duplicate numbers. */
  lemma SaveKeepsUnique(list: seq<Entry>, h: Entry)
    requires UniquePrs(list)
    ensures UniquePrs(Saved(list, h))
  {
  }

  /** After a save the title for that number is the saved one if the number
      was new, and the earlier title otherwise: a title is never overwritten. */
  lemma {:induction false} SavedTitle(list: seq<Entry>, h: Entry)
    ensures FirstTitle(Saved(list, h), h.pr) == if HasPr(list, h.pr) then FirstTitle(list, h.pr) else h.title
  {
    if !HasPr(list, h.pr) {
      var r := list + [h];
      assert FirstWithPr(r, |list|, h.pr);
    }
  }

  /** Saving one number leaves every other number's title as it was. */
  lemma {:induction false} SaveKeepsOtherTitles(list: seq<Entry>, h: Entry, pr: int)
    requires pr != h.pr
    ensures FirstTitle(Saved(list, h), pr) == FirstTitle(list, pr)
    decreases |list|
  {
    if !HasPr(list, h.pr) && list != [] {
      assert (list + [h])[1..] == list[1..] + [h];
      SaveKeepsOtherTitles(list[1..], h, pr);
    } else if !HasPr(list, h.pr) {
      assert FirstTitle([h], pr) == FirstTitle([], pr);
    }
  }

  /** Deleting distributes over concatenation, so the kept entries stay in
      their original order. */
  lemma {:induction false} DeleteKeepsOrder(a: seq<Entry>, b: seq<Entry>, pr: int)
    ensures WithoutPr(a + b, pr) == WithoutPr(a, pr) + WithoutPr(b, pr)
  {
    if a != [] {
      assert (a + b)[1..] == a[1..] + b;
      DeleteKeepsOrder(a[1..], b, pr);
    } else {
      assert a + b == b;
    }
  }

  /** Deleting a number that is not present changes nothing. */
  lemma {:induction false} DeleteAbsent(list: seq<Entry>, pr: int)
    requires !HasPr(list, pr)
    ensures WithoutPr(list, pr) == list
  {
    if list != [] {
      DeleteAbsent(list[1..], pr);
      assert list[0].pr != pr;
      assert list == [list[0]] + list[1..];
    }
  }

  /** Deleting twice is deleting once, and afterwards the title is `''`. */
  lemma DeleteIdempotent(list: seq<Entry>, pr: int)
    ensures WithoutPr(WithoutPr(list, pr), pr) == WithoutPr(list, pr)
    ensures FirstTitle(WithoutPr(list, pr), pr) == ""
  {
    DeleteAbsent(WithoutPr(list, pr), pr);
  }

  /** Deleting keeps the list free of duplicate numbers. */
  lemma {:induction false} DeleteKeepsUnique(list: seq<Entry>, pr: int)
    requires UniquePrs(list)
    ensures UniquePrs(WithoutPr(list, pr))
  {
    if list != [] {
      assert UniquePrs(list[1..]) by {
        forall i, j | 0 <= i < j < |list[1..]|
          ensures list[1..][i].pr != list[1..][j].pr
        {
          assert list[1..][i] == list[i + 1] && list[1..][j] == list[j + 1];
        }
      }
      DeleteKeepsUnique(list[1..], pr);
      var rest := WithoutPr(list[1..], pr);
      forall e | e in rest
        ensures e.pr != list[0].pr
      {
        var k :| 0 <= k < |list[1..]| && list[1..][k] == e;
        assert list[k + 1] == e;
      }
    }
  }
}
