/**
 * Runs of the background controller on concrete inputs: two
 * block-then-unblock runs, and the restore of a list in
 * which one site has both an expired and a future entry.
 */
module Scenarios {
  import opened Wrappers
  import opened Sites
  import opened Rules
  import opened Background

  /** Blocking a.com and b.com installs two rules with distinct ids; after
      unblocking a.com the one rule left blocks b.com. */
  method TwoSitesThenUnblockOne(now: int) returns (before: seq<Rule>, after: seq<Rule>)
    ensures |before| == 2 && before[0].id != before[1].id
    ensures before[0].condition.urlFilter == "a.com" && before[1].condition.urlFilter == "b.com"
    ensures after == [CreateBlockingRule("b.com", 1)]
  {
    var registry := new Registry();
    var reply, fx := registry.HandleMessage(Message(BlockAction, "a.com", 60), now);
    reply, fx := registry.HandleMessage(Message(BlockAction, "b.com", 60), now);
    var u := registry.RuleRefresh([]);
    before := ApplyUpdate([], u);
    reply, fx := registry.HandleMessage(Message(UnblockAction, "a.com", 0), now);
    assert registry.blockedWebsites == [BlockedSite("b.com", now + 60 * 60000)];
    u := registry.RuleRefresh(before);
    after := ApplyUpdate(before, u);
  }

  /** Blocking example.com for 30 minutes at `now` lists one record ending
      30 minutes later; unblocking it empties the list and its rules. */
  method BlockThenUnblock(now: int) returns (listed: seq<BlockedSite>, rulesAfter: seq<Rule>)
    ensures listed == [BlockedSite("example.com", now + 30 * 60 * 1000)]
    ensures rulesAfter == []
  {
    var registry := new Registry();
    var reply, fx := registry.HandleMessage(Message(BlockAction, "example.com", 30), now);
    reply, fx := registry.HandleMessage(Message(ListAction, "", 0), now);
    listed := reply.value.websites;
    var u := registry.RuleRefresh([]);
    var installed := ApplyUpdate([], u);
    reply, fx := registry.HandleMessage(Message(UnblockAction, "example.com", 0), now);
    u := registry.RuleRefresh(installed);
    rulesAfter := ApplyUpdate(installed, u);
  }

  /** Restoring [a.com expired, a.com in the future] removes both records
      (unblocking is by name) yet leaves a timer entry for a.com, set by the
      later entry after the earlier one's unblock. */
  method RestoreLeavesTimerForRemovedSite(now: int) returns (listed: seq<BlockedSite>, hasTimer: bool)
    ensures listed == [] && hasTimer
  {
    var registry := new Registry();
    var persisted := [BlockedSite("a.com", now - 1), BlockedSite("a.com", now + 1)];
    var fx := registry.Restore(Some(persisted), now);
    assert LastVisit(persisted, "a.com") == Some(persisted[1]);
    assert ExpiredNames(persisted, now) == {"a.com"};
    assert persisted[1..][1..] == [];
    assert Without(persisted, {"a.com"}) == [];
    listed := registry.blockedWebsites;
    hasTimer := "a.com" in registry.timeoutMap;
  }

  /** The in-process timer set by restore outlives an unblock: unblocking a.com
      deletes its timer entry but requests no cancellation, so when the timer
      later calls unblockWebsite("a.com") it removes a block of a.com made
      after the unblock, long before that block's finish time. */
  method StaleTimerEndsLaterBlock(now: int)
    returns (restoreFx: seq<Effect>, unblockFx: seq<Effect>, reblocked: seq<BlockedSite>,
             timerFx: seq<Effect>, listed: seq<BlockedSite>)
    ensures restoreFx == [StartTimer("a.com", 60 * 60000), RefreshRules]
    ensures unblockFx == [PersistAndRefresh([])]
    ensures reblocked == [BlockedSite("a.com", now + 60000 + 120 * 60000)]
    ensures listed == [] && timerFx == [PersistAndRefresh([])]
  {
    var registry := new Registry();
    var persisted := [BlockedSite("a.com", now + 60 * 60000)];
    restoreFx := registry.Restore(Some(persisted), now);
    assert ExpiredNames(persisted, now) == {};
    WithoutAbsent(persisted, {});
    assert VisitEffects(persisted, 1, now) == [StartTimer("a.com", 60 * 60000)];
    unblockFx := registry.UnblockWebsite("a.com");
    assert registry.blockedWebsites == [];
    var blockFx := registry.BlockWebsite("a.com", 120, now + 60000);
    reblocked := registry.blockedWebsites;
    // the restore timer fires at now + 60 minutes and runs unblockWebsite("a.com")
    timerFx := registry.UnblockWebsite("a.com");
    assert reblocked[1..] == [];
    listed := registry.blockedWebsites;
  }
}
