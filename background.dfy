/**
 * The background controller: the in-memory block list and timer table, the
 * block and unblock operations, the alarm handler, the restore loop run at
 * install time, the rule refresh and the message dispatcher.
 *
 * Host calls are not performed; each operation returns, in order, the host
 * effects it requests.
 */
module Background {
  import opened Wrappers
  import opened Sites
  import opened Rules

  /** The handle a host timer call returns. */
  type TimerHandle = nat

  /** A request made to the host. */
  datatype Effect =
    | PersistAndRefresh(saved: seq<BlockedSite>)  // storage write of the list; on completion, a rule refresh
    | CreateAlarm(name: string, when: int)        // persistent alarm named `name` firing at time `when`
    | StartTimer(name: string, delay: int)        // in-process timer that unblocks `name` after `delay` ms
    | RefreshRules                                // rule refresh against the host's installed rules

  /** A request from the popup. Fields a request does not use are ignored. */
  datatype Message = Message(action: string, website: string, duration: int)

  /** The reply objects the dispatcher sends. */
  datatype Response = SuccessReply(success: bool) | WebsitesReply(websites: seq<BlockedSite>)

  const BlockAction: string := "blockWebsite"
  const UnblockAction: string := "unblockWebsite"
  const ListAction: string := "getBlockedWebsites"

  /** The reply the dispatcher sends to `message` while the block list is
      `list`: success for a block or unblock request, the list for a list
      request, and no reply for any other action. */
  function ReplyTo(message: Message, list: seq<BlockedSite>): Option<Response> {
    if message.action == BlockAction || message.action == UnblockAction then Some(SuccessReply(true))
    else if message.action == ListAction then Some(WebsitesReply(list))
    else None
  }

  /** The last entry of `visited` whose site is `name`, if any. */
  function LastVisit(visited: seq<BlockedSite>, name: string): (r: Option<BlockedSite>)
    ensures r.None? <==> forall i :: 0 <= i < |visited| ==> visited[i].website != name
    ensures r.Some? ==> exists i :: 0 <= i < |visited| && visited[i] == r.value &&
                          r.value.website == name &&
                          forall j :: i < j < |visited| ==> visited[j].website != name
  {
    if visited == [] then None
    else if visited[|visited| - 1].website == name then Some(visited[|visited| - 1])
    else LastVisit(visited[..|visited| - 1], name)
  }

  /** After the restore loop has visited `visited`, starting from the timer
      table `timers`, the table has a key `name` exactly when the last visited
      entry for `name` had not expired (its timer was set and nothing deleted
      it), or when no visited entry is named `name` and the key was there. */
  predicate TimerKeyAfter(timers: map<string, TimerHandle>, visited: seq<BlockedSite>, now: int, name: string) {
    match LastVisit(visited, name)
    case Some(e) => !Expired(e, now)
    case None => name in timers
  }

  /** Visiting one more entry makes it the last visit of its own site and
      changes no other site's last visit. */
  lemma LastVisitStep(list: seq<BlockedSite>, i: nat, name: string)
    requires i < |list|
    ensures LastVisit(list[..i + 1], name) ==
            if list[i].website == name then Some(list[i]) else LastVisit(list[..i], name)
  {
    assert list[..i + 1][..i] == list[..i];
  }

  /** The timer table `m` is what the restore loop leaves after visiting
      `visited`, started from table `m0` with next handle `h0`: its keys are
      given by TimerKeyAfter, a key no visited entry names keeps its old
      handle, and a key set by the loop holds a handle handed out by it. */
  ghost predicate TimersAfter(m0: map<string, TimerHandle>, h0: TimerHandle, visited: seq<BlockedSite>,
                              now: int, m: map<string, TimerHandle>)
  {
    (forall k :: k in m <==> TimerKeyAfter(m0, visited, now, k)) &&
    (forall k :: k in m ==>
       if LastVisit(visited, k).None? then k in m0 && m[k] == m0[k] else h0 <= m[k])
  }

  /** Visiting an entry that has not expired sets its site's key to a new handle. */
  lemma TimersAfterArm(m0: map<string, TimerHandle>, h0: TimerHandle, list: seq<BlockedSite>, i: nat,
                       now: int, m: map<string, TimerHandle>, h: TimerHandle)
    requires i < |list| && !Expired(list[i], now) && h0 <= h
    requires TimersAfter(m0, h0, list[..i], now, m)
    ensures TimersAfter(m0, h0, list[..i + 1], now, m[list[i].website := h])
  {
    forall k {
      LastVisitStep(list, i, k);
    }
  }

  /** Visiting an expired entry deletes its site's key. */
  lemma TimersAfterDrop(m0: map<string, TimerHandle>, h0: TimerHandle, list: seq<BlockedSite>, i: nat,
                        now: int, m: map<string, TimerHandle>)
    requires i < |list| && Expired(list[i], now)
    requires TimersAfter(m0, h0, list[..i], now, m)
    ensures TimersAfter(m0, h0, list[..i + 1], now, m - {list[i].website})
  {
    forall k {
      LastVisitStep(list, i, k);
    }
  }

  /** Visiting an expired entry removes its site from the live list; visiting
      any other entry leaves the live list alone. */
  lemma RestoreListStep(list: seq<BlockedSite>, i: nat, now: int)
    requires i < |list|
    ensures Without(list, ExpiredNames(list[..i + 1], now)) ==
            if Expired(list[i], now) then Without(Without(list, ExpiredNames(list[..i], now)), {list[i].website})
            else Without(list, ExpiredNames(list[..i], now))
  {
    var before, after := ExpiredNames(list[..i], now), ExpiredNames(list[..i + 1], now);
    ExpiredNamesStep(list, i, now);
    if Expired(list[i], now) {
      assert after == before + {list[i].website};
      WithoutTwice(list, before, {list[i].website});
    } else {
      assert after == before;
    }
  }

  /** Every entry that survives restore has its site in the restored timer
      table: the last persisted entry for that site had not expired. */
  lemma RestoredSurvivorsHaveTimers(m0: map<string, TimerHandle>, list: seq<BlockedSite>, now: int)
    ensures forall e :: e in RestoredList(list, now) ==> TimerKeyAfter(m0, list, now, e.website)
  {
    RestoredListSurvivors(list, now);
    forall e | e in RestoredList(list, now)
      ensures TimerKeyAfter(m0, list, now, e.website)
    {
      var i :| 0 <= i < |list| && list[i] == e;
      var last := LastVisit(list, e.website);
      assert last.Some?;
      var j :| 0 <= j < |list| && list[j] == last.value;
    }
  }

  /** The host effect the restore loop requests when it visits entry `j` of
      the persisted list: a timer for an entry still in the future, or the
      storage write of the list left after unblocking an expired entry. */
  function VisitEffect(list: seq<BlockedSite>, j: nat, now: int): Effect
    requires j < |list|
  {
    if Expired(list[j], now) then PersistAndRefresh(Without(list, ExpiredNames(list[..j + 1], now)))
    else StartTimer(list[j].website, list[j].finishTime - now)
  }

  /** The effects the restore loop requests while visiting the first `n`
      entries of the persisted list, in order. */
  function VisitEffects(list: seq<BlockedSite>, n: nat, now: int): seq<Effect>
    requires n <= |list|
  {
    if n == 0 then [] else VisitEffects(list, n - 1, now) + [VisitEffect(list, n - 1, now)]
  }

  /** The number of timers the restore loop arms while visiting the first
      `n` entries of the persisted list: one per entry still in the future. */
  function ArmedCount(list: seq<BlockedSite>, n: nat, now: int): nat
    requires n <= |list|
  {
    if n == 0 then 0 else ArmedCount(list, n - 1, now) + (if Expired(list[n - 1], now) then 0 else 1)
  }

  /** Visiting n entries requests exactly one effect per entry, in order. */
  lemma {:induction false} VisitEffectsAt(list: seq<BlockedSite>, n: nat, now: int)
    requires n <= |list|
    ensures |VisitEffects(list, n, now)| == n
    ensures forall j :: 0 <= j < n ==> VisitEffects(list, n, now)[j] == VisitEffect(list, j, now)
  {
    if n > 0 {
      VisitEffectsAt(list, n - 1, now);
    }
  }

  class Registry {
    /** The block list, in the order entries were added. */
    var blockedWebsites: seq<BlockedSite>
    /** The in-process timer set for each site by the restore loop. */
    var timeoutMap: map<string, TimerHandle>
    /** The handle the host's timer service hands out next. */
    var nextHandle: TimerHandle

    /** Every handle in the table was handed out already, and no handle is
        shared by two sites. */
    ghost predicate Valid()
      reads this
    {
      (forall k :: k in timeoutMap ==> timeoutMap[k] < nextHandle) &&
      (forall k, k' :: k in timeoutMap && k' in timeoutMap && k != k' ==> timeoutMap[k] != timeoutMap[k'])
    }

    /** The state when the background script is loaded. */
    constructor ()
      ensures Valid()
      ensures blockedWebsites == [] && timeoutMap == map[]
    {
      blockedWebsites := [];
      timeoutMap := map[];
      nextHandle := 1;
    }

    /** Blocks `website` for `duration` minutes from `now`: appends one
        record (no check for an existing entry for the same site), saves the
        list and asks for an alarm named by the site at the record's finish
        time. */
    method BlockWebsite(website: string, duration: int, now: int) returns (fx: seq<Effect>)
      requires Valid()
      modifies this
      ensures Valid()
      ensures blockedWebsites == old(blockedWebsites) + [BlockedSite(website, FinishTime(now, duration))]
      ensures timeoutMap == old(timeoutMap) && nextHandle == old(nextHandle)
      ensures fx == [PersistAndRefresh(blockedWebsites), CreateAlarm(website, FinishTime(now, duration))]
    {
      var finishTime := FinishTime(now, duration);
      blockedWebsites := blockedWebsites + [BlockedSite(website, finishTime)];
      fx := [PersistAndRefresh(blockedWebsites), CreateAlarm(website, finishTime)];
    }

    /** Unblocks `website`: drops every record with exactly that site (the
        others keep their order), saves the list and forgets the site's timer
        entry; every other timer entry is untouched. */
    method UnblockWebsite(website: string) returns (fx: seq<Effect>)
      requires Valid()
      modifies this
      ensures Valid()
      ensures blockedWebsites == Without(old(blockedWebsites), {website})
      ensures timeoutMap == old(timeoutMap) - {website} && nextHandle == old(nextHandle)
      ensures fx == [PersistAndRefresh(blockedWebsites)]
    {
      blockedWebsites := Without(blockedWebsites, {website});
      fx := [PersistAndRefresh(blockedWebsites)];
      timeoutMap := timeoutMap - {website};
    }

    /** A fired alarm unblocks the site it is named after. */
    method OnAlarm(name: string) returns (fx: seq<Effect>)
      requires Valid()
      modifies this
      ensures Valid()
      ensures blockedWebsites == Without(old(blockedWebsites), {name})
      ensures timeoutMap == old(timeoutMap) - {name} && nextHandle == old(nextHandle)
      ensures fx == [PersistAndRefresh(blockedWebsites)]
    {
      fx := UnblockWebsite(name);
    }

    /** Starts an in-process timer that unblocks `website` after `delay`
        milliseconds and records its handle as the site's timer entry,
        replacing any entry the site had. */
    method ArmTimer(website: string, delay: int) returns (fx: seq<Effect>)
      requires Valid()
      modifies this
      ensures Valid()
      ensures timeoutMap == old(timeoutMap)[website := old(nextHandle)] && nextHandle == old(nextHandle) + 1
      ensures blockedWebsites == old(blockedWebsites)
      ensures fx == [StartTimer(website, delay)]
    {
      timeoutMap := timeoutMap[website := nextHandle];
      nextHandle := nextHandle + 1;
      fx := [StartTimer(website, delay)];
    }

    /** The restore loop's step for one persisted entry: an entry still in
        the future arms a timer for its site; an expired one unblocks its site. */
    method VisitEntry(entry: BlockedSite, now: int) returns (fx: seq<Effect>)
      requires Valid()
      modifies this
      ensures Valid()
      ensures !Expired(entry, now) ==>
                timeoutMap == old(timeoutMap)[entry.website := old(nextHandle)] &&
                nextHandle == old(nextHandle) + 1 &&
                blockedWebsites == old(blockedWebsites) &&
                fx == [StartTimer(entry.website, entry.finishTime - now)]
      ensures Expired(entry, now) ==>
                timeoutMap == old(timeoutMap) - {entry.website} &&
                nextHandle == old(nextHandle) &&
                blockedWebsites == Without(old(blockedWebsites), {entry.website}) &&
                fx == [PersistAndRefresh(blockedWebsites)]
    {
      var remainingTime := entry.finishTime - now;
      if remainingTime > 0 {
        fx := ArmTimer(entry.website, remainingTime);
      } else {
        fx := UnblockWebsite(entry.website);
      }
    }

    /** Visits entry `i` of the persisted list, when the state is what the
        restore loop leaves after the entries before it; afterwards the state
        is what it leaves after entry `i` too. */
    method VisitPersisted(list: seq<BlockedSite>, i: nat, now: int,
                          ghost m0: map<string, TimerHandle>, ghost h0: TimerHandle)
      returns (fx: seq<Effect>)
      requires i < |list| && Valid()
      requires blockedWebsites == Without(list, ExpiredNames(list[..i], now))
      requires h0 <= nextHandle && TimersAfter(m0, h0, list[..i], now, timeoutMap)
      modifies this
      ensures Valid()
      ensures blockedWebsites == Without(list, ExpiredNames(list[..i + 1], now))
      ensures h0 <= nextHandle && TimersAfter(m0, h0, list[..i + 1], now, timeoutMap)
      ensures nextHandle == old(nextHandle) + (if Expired(list[i], now) then 0 else 1)
      ensures fx == [VisitEffect(list, i, now)]
    {
      RestoreListStep(list, i, now);
      if Expired(list[i], now) {
        TimersAfterDrop(m0, h0, list, i, now, timeoutMap);
      } else {
        TimersAfterArm(m0, h0, list, i, now, timeoutMap, nextHandle);
      }
      fx := VisitEntry(list[i], now);
    }

    /** The restore loop over the persisted snapshot `list`: the live list is
        first set to `list`; then, visiting `list` in order, an expired entry
        unblocks its site by name (which replaces the live list and deletes
        the site's timer entry) and an entry still in the future sets a fresh
        timer for its site. */
    method RestoreEntries(list: seq<BlockedSite>, now: int) returns (fx: seq<Effect>)
      requires Valid()
      modifies this
      ensures Valid()
      ensures blockedWebsites == RestoredList(list, now)
      ensures TimersAfter(old(timeoutMap), old(nextHandle), list, now, timeoutMap)
      ensures nextHandle == old(nextHandle) + ArmedCount(list, |list|, now)
      ensures fx == VisitEffects(list, |list|, now)
    {
      ghost var m0, h0 := timeoutMap, nextHandle;
      blockedWebsites := list;
      fx := [];
      var i := 0;
      assert ExpiredNames(list[..i], now) == {};
      WithoutAbsent(list, {});
      while i < |list|
        invariant 0 <= i <= |list|
        invariant Valid()
        invariant blockedWebsites == Without(list, ExpiredNames(list[..i], now))
        invariant nextHandle == h0 + ArmedCount(list, i, now)
        invariant TimersAfter(m0, h0, list[..i], now, timeoutMap)
        invariant fx == VisitEffects(list, i, now)
      {
        var visited := VisitPersisted(list, i, now, m0, h0);
        fx := fx + visited;
        i := i + 1;
      }
      assert list[..i] == list;
    }

    /** Restores the state from the persisted list, None when storage holds
        nothing: then nothing changes and no rule refresh is requested;
        otherwise the restore loop runs and a rule refresh follows. */
    method Restore(persisted: Option<seq<BlockedSite>>, now: int) returns (fx: seq<Effect>)
      requires Valid()
      modifies this
      ensures Valid()
      ensures persisted.None? ==>
                blockedWebsites == old(blockedWebsites) && timeoutMap == old(timeoutMap) &&
                nextHandle == old(nextHandle) && fx == []
      ensures persisted.Some? ==>
                blockedWebsites == RestoredList(persisted.value, now) &&
                TimersAfter(old(timeoutMap), old(nextHandle), persisted.value, now, timeoutMap) &&
                nextHandle == old(nextHandle) + ArmedCount(persisted.value, |persisted.value|, now) &&
                fx == VisitEffects(persisted.value, |persisted.value|, now) + [RefreshRules]
    {
      match persisted
      case None =>
        fx := [];
      case Some(list) =>
        fx := RestoreEntries(list, now);
        fx := fx + [RefreshRules];
    }

    /** The rule refresh: given the rules the host reports installed, the
        replace request removes all of their ids and adds the projection of
        the current list, so that once applied the installed rules are
        exactly that projection. */
    method RuleRefresh(existingRules: seq<Rule>) returns (u: RuleUpdate)
      ensures u.addRules == RulesToAdd(blockedWebsites)
      ensures forall k :: k in u.removeRuleIds <==> exists r :: r in existingRules && r.id == k
      ensures ApplyUpdate(existingRules, u) == RulesToAdd(blockedWebsites)
    {
      u := ComputeUpdate(existingRules, blockedWebsites);
      UpdateReplacesAll(existingRules, blockedWebsites);
    }

    /** The message dispatcher: block and unblock requests run their operation
        and reply success; a list request replies with the current list and
        changes nothing; any other action gets no reply and changes nothing. */
    method HandleMessage(message: Message, now: int) returns (reply: Option<Response>, fx: seq<Effect>)
      requires Valid()
      modifies this
      ensures Valid()
      ensures reply == ReplyTo(message, old(blockedWebsites))
      ensures message.action == BlockAction ==>
                blockedWebsites ==
                  old(blockedWebsites) + [BlockedSite(message.website, FinishTime(now, message.duration))] &&
                timeoutMap == old(timeoutMap) && nextHandle == old(nextHandle) &&
                fx == [PersistAndRefresh(blockedWebsites), CreateAlarm(message.website, FinishTime(now, message.duration))] &&
                reply == Some(SuccessReply(true))
      ensures message.action == UnblockAction ==>
                blockedWebsites == Without(old(blockedWebsites), {message.website}) &&
                timeoutMap == old(timeoutMap) - {message.website} && nextHandle == old(nextHandle) &&
                fx == [PersistAndRefresh(blockedWebsites)] &&
                reply == Some(SuccessReply(true))
      ensures message.action == ListAction ==>
                reply == Some(WebsitesReply(old(blockedWebsites))) && fx == [] && unchanged(this)
      ensures message.action !in {BlockAction, UnblockAction, ListAction} ==>
                reply == None && fx == [] && unchanged(this)
    {
      if message.action == BlockAction {
        fx := BlockWebsite(message.website, message.duration, now);
        reply := Some(SuccessReply(true));
      } else if message.action == UnblockAction {
        fx := UnblockWebsite(message.website);
        reply := Some(SuccessReply(true));
      } else if message.action == ListAction {
        reply := Some(WebsitesReply(blockedWebsites));
        fx := [];
      } else {
        reply := None;
        fx := [];
      }
    }
  }
}
