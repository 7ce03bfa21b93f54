/**
 * The blocked-site record and the list logic of the background controller:
 * the finish-time arithmetic of blockWebsite, the by-name filter of
 * unblockWebsite, and what the restore loop leaves of a persisted list.
 */
module Sites {

  /** One entry of the block list: the site string as the user entered it and
      the absolute time (epoch milliseconds) at which its block ends. */
  datatype BlockedSite = BlockedSite(website: string, finishTime: int)

  const MillisPerMinute: int := 60 * 1000

  /** The finish time of a block of `duration` minutes requested at `now`. */
  function FinishTime(now: int, duration: int): int {
    now + duration * MillisPerMinute
  }

  /** `sub` can be obtained from `list` by deleting entries, without reordering. */
  predicate IsSubsequence(sub: seq<BlockedSite>, list: seq<BlockedSite>) {
    sub == [] ||
    (list != [] &&
     ((sub[0] == list[0] && IsSubsequence(sub[1..], list[1..])) || IsSubsequence(sub, list[1..])))
  }

  /** The entries of `list` whose site is not one of `names`, in their original
      order. unblockWebsite is the case of a single name. */
  function Without(list: seq<BlockedSite>, names: set<string>): (r: seq<BlockedSite>)
    ensures |r| <= |list|
    ensures forall i :: 0 <= i < |r| ==> r[i].website !in names
  {
    if list == [] then []
    else if list[0].website in names then Without(list[1..], names)
    else [list[0]] + Without(list[1..], names)
  }

  /** Without keeps every entry whose site is not in `names`, as often as it
      occurs, drops every other entry, and does not reorder what it keeps. */
  lemma {:induction false} WithoutContent(list: seq<BlockedSite>, names: set<string>)
    ensures forall e :: multiset(Without(list, names))[e] ==
                        if e.website in names then 0 else multiset(list)[e]
    ensures IsSubsequence(Without(list, names), list)
  {
    if list != [] {
      assert list == [list[0]] + list[1..];
      WithoutContent(list[1..], names);
    }
  }

  /** A subsequence holds each entry at most as often as the whole list. */
  lemma {:induction false} SubsequenceMultiset(sub: seq<BlockedSite>, list: seq<BlockedSite>)
    requires IsSubsequence(sub, list)
    ensures multiset(sub) <= multiset(list)
  {
    if sub != [] {
      assert list == [list[0]] + list[1..];
      if sub[0] == list[0] && IsSubsequence(sub[1..], list[1..]) {
        SubsequenceMultiset(sub[1..], list[1..]);
        assert sub == [sub[0]] + sub[1..];
      } else {
        SubsequenceMultiset(sub, list[1..]);
      }
    }
  }

  /** Without is the only order-preserving selection of exactly the entries
      whose site is not in `names`: any subsequence of `list` with that content
      equals it. */
  lemma {:induction false} WithoutIsUnique(list: seq<BlockedSite>, names: set<string>, r: seq<BlockedSite>)
    requires IsSubsequence(r, list)
    requires forall e :: multiset(r)[e] == if e.website in names then 0 else multiset(list)[e]
    ensures r == Without(list, names)
  {
    if list == [] {
      assert r == [];
    } else {
      var x, rest := list[0], list[1..];
      assert list == [x] + rest;
      if r == [] {
        assert multiset(r)[x] == 0;
        assert x.website in names;
        WithoutIsUnique(rest, names, r);
      } else if r[0] == x && IsSubsequence(r[1..], rest) {
        assert r == [x] + r[1..];
        assert multiset(r)[x] > 0;
        assert x.website !in names;
        WithoutIsUnique(rest, names, r[1..]);
      } else {
        assert IsSubsequence(r, rest);
        SubsequenceMultiset(r, rest);
        assert x.website in names;
        WithoutIsUnique(rest, names, r);
      }
    }
  }

  /** Removing one set of names and then another is removing their union;
      in particular, unblocking twice is unblocking once. */
  lemma {:induction false} WithoutTwice(list: seq<BlockedSite>, s: set<string>, t: set<string>)
    ensures Without(Without(list, s), t) == Without(list, s + t)
  {
    if list != [] {
      WithoutTwice(list[1..], s, t);
    }
  }

  /** Unblocking a name no entry carries leaves the list as it is. */
  lemma {:induction false} WithoutAbsent(list: seq<BlockedSite>, names: set<string>)
    requires forall i :: 0 <= i < |list| ==> list[i].website !in names
    ensures Without(list, names) == list
  {
    if list != [] {
      WithoutAbsent(list[1..], names);
      assert list == [list[0]] + list[1..];
    }
  }

  /** The filter works piecewise on a concatenation. */
  lemma {:induction false} WithoutAppend(a: seq<BlockedSite>, b: seq<BlockedSite>, names: set<string>)
    ensures Without(a + b, names) == Without(a, names) + Without(b, names)
  {
    if a == [] {
      assert a + b == b;
    } else {
      assert (a + b)[0] == a[0] && (a + b)[1..] == a[1..] + b;
      WithoutAppend(a[1..], b, names);
      if a[0].website !in names {
        assert [a[0]] + (Without(a[1..], names) + Without(b, names)) ==
               ([a[0]] + Without(a[1..], names)) + Without(b, names);
      }
    }
  }

  /** A block appended at the end is dropped by unblocking its own site, and
      kept at the end by unblocking any other site. */
  lemma UnblockAfterBlock(list: seq<BlockedSite>, x: BlockedSite, names: set<string>)
    ensures Without(list + [x], names) ==
            if x.website in names then Without(list, names) else Without(list, names) + [x]
  {
    WithoutAppend(list, [x], names);
  }

  /** At time `now` an entry whose remaining time finishTime - now is not
      positive has expired. */
  predicate Expired(e: BlockedSite, now: int) {
    e.finishTime - now <= 0
  }

  /** The sites that have at least one expired entry in `list`. */
  function ExpiredNames(list: seq<BlockedSite>, now: int): set<string> {
    set e | e in list && Expired(e, now) :: e.website
  }

  /** What the restore loop leaves of the persisted list `list` at `now`. */
  function RestoredList(list: seq<BlockedSite>, now: int): seq<BlockedSite> {
    Without(list, ExpiredNames(list, now))
  }

  /** An entry survives restore exactly when no entry of the persisted list
      with the same site has expired; survivors keep their order. */
  lemma RestoredListSurvivors(list: seq<BlockedSite>, now: int)
    ensures forall e :: e in RestoredList(list, now) <==>
      e in list && forall x :: x in list && x.website == e.website ==> !Expired(x, now)
    ensures IsSubsequence(RestoredList(list, now), list)
  {
    var r := RestoredList(list, now);
    WithoutContent(list, ExpiredNames(list, now));
    forall e
      ensures e in r <==> e in list && forall x :: x in list && x.website == e.website ==> !Expired(x, now)
    {
      assert e in r <==> multiset(r)[e] > 0;
      assert e in list <==> multiset(list)[e] > 0;
      if e in list && e.website in ExpiredNames(list, now) {
        var x :| x in list && Expired(x, now) && x.website == e.website;
      }
    }
  }

  /** Extending the visited prefix by one entry adds that entry's site to the
      expired names exactly when it has expired. */
  lemma ExpiredNamesStep(list: seq<BlockedSite>, i: nat, now: int)
    requires i < |list|
    ensures ExpiredNames(list[..i + 1], now) ==
            ExpiredNames(list[..i], now) + (if Expired(list[i], now) then {list[i].website} else {})
  {
    assert list[..i + 1] == list[..i] + [list[i]];
  }
}
