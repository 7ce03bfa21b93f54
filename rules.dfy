/**
 * The rule projector: the network-blocking rules derived from the block list,
 * and the atomic replace request that installs them in place of every rule
 * installed before.
 */
module Rules {
  import opened Sites

  datatype RuleAction = Block
  datatype ResourceType = MainFrame

  /** What a rule matches: requests whose URL matches `urlFilter`, restricted
      to the listed resource types. */
  datatype RuleCondition = RuleCondition(urlFilter: string, resourceTypes: seq<ResourceType>)

  datatype Rule = Rule(id: int, priority: int, action: RuleAction, condition: RuleCondition)

  /** One call to the host's replace-dynamic-rules operation. */
  datatype RuleUpdate = RuleUpdate(removeRuleIds: seq<int>, addRules: seq<Rule>)

  /** The rule that blocks top-level navigation to `url`. */
  function CreateBlockingRule(url: string, ruleId: int): Rule {
    Rule(ruleId, 1, Block, RuleCondition(url, [MainFrame]))
  }

  /** `r` blocks main-frame requests to `url` with priority 1. */
  predicate BlocksMainFrame(r: Rule, url: string) {
    r.priority == 1 && r.action == Block && r.condition.urlFilter == url &&
    r.condition.resourceTypes == [MainFrame]
  }

  /** One blocking rule per record, numbered from 1 in list order. */
  function RulesToAdd(list: seq<BlockedSite>): seq<Rule> {
    seq(|list|, i requires 0 <= i < |list| => CreateBlockingRule(list[i].website, i + 1))
  }

  /** The ids of `rules`, in order. */
  function RuleIds(rules: seq<Rule>): seq<int> {
    seq(|rules|, i requires 0 <= i < |rules| => rules[i].id)
  }

  /** The replace request issued when the host reports `existing` as the
      currently installed rules and the block list is `list`. */
  function ComputeUpdate(existing: seq<Rule>, list: seq<BlockedSite>): RuleUpdate {
    RuleUpdate(RuleIds(existing), RulesToAdd(list))
  }

  /** The installed rules whose id is not in `ids`. */
  function KeepUnlisted(installed: seq<Rule>, ids: seq<int>): (r: seq<Rule>)
    ensures forall x :: x in r <==> x in installed && x.id !in ids
  {
    if installed == [] then []
    else if installed[0].id in ids then KeepUnlisted(installed[1..], ids)
    else [installed[0]] + KeepUnlisted(installed[1..], ids)
  }

  /** The host's rule set after it applies `u` to `installed`: the rules
      named in removeRuleIds go, the rules of addRules come. */
  function ApplyUpdate(installed: seq<Rule>, u: RuleUpdate): seq<Rule> {
    KeepUnlisted(installed, u.removeRuleIds) + u.addRules
  }

  /** The projection has one rule per record; rule i has id i+1 and blocks
      main-frame requests to record i's site with priority 1. */
  lemma ProjectionShape(list: seq<BlockedSite>)
    ensures |RulesToAdd(list)| == |list|
    ensures forall i :: 0 <= i < |list| ==>
              RulesToAdd(list)[i].id == i + 1 && BlocksMainFrame(RulesToAdd(list)[i], list[i].website)
  {
  }

  /** The projection's ids are exactly 1..n, strictly increasing in list
      order, hence pairwise distinct. */
  lemma ProjectionIds(list: seq<BlockedSite>)
    ensures forall k :: k in RuleIds(RulesToAdd(list)) <==> 1 <= k <= |list|
    ensures forall i, j :: 0 <= i < j < |list| ==> RulesToAdd(list)[i].id < RulesToAdd(list)[j].id
  {
    var ids := RuleIds(RulesToAdd(list));
    forall k | 1 <= k <= |list|
      ensures k in ids
    {
      assert ids[k - 1] == k;
    }
  }

  /** Every record has a blocking rule for its site, and every rule blocks the
      site of some record: no rule refers to a site that is not in the list. */
  lemma ProjectionCorrespondence(list: seq<BlockedSite>)
    ensures forall e :: e in list ==> exists r :: r in RulesToAdd(list) && BlocksMainFrame(r, e.website)
    ensures forall r :: r in RulesToAdd(list) ==> exists e :: e in list && BlocksMainFrame(r, e.website)
  {
    var rules := RulesToAdd(list);
    forall e | e in list
      ensures exists r :: r in rules && BlocksMainFrame(r, e.website)
    {
      var i :| 0 <= i < |list| && list[i] == e;
      assert rules[i] in rules;
    }
    forall r | r in rules
      ensures exists e :: e in list && BlocksMainFrame(r, e.website)
    {
      var i :| 0 <= i < |rules| && rules[i] == r;
      assert list[i] in list;
    }
  }

  /** Appending a record appends exactly one rule, numbered n+1, and leaves
      the rules of the earlier records as they were. */
  lemma ProjectionAppend(list: seq<BlockedSite>, x: BlockedSite)
    ensures RulesToAdd(list + [x]) == RulesToAdd(list) + [CreateBlockingRule(x.website, |list| + 1)]
  {
  }

  /** After unblocking the sites `names`, no rule refers to them. */
  lemma ProjectionAfterUnblock(list: seq<BlockedSite>, names: set<string>)
    ensures forall r :: r in RulesToAdd(Without(list, names)) ==> r.condition.urlFilter !in names
  {
    var kept := Without(list, names);
    forall r | r in RulesToAdd(kept)
      ensures r.condition.urlFilter !in names
    {
      var i :| 0 <= i < |kept| && RulesToAdd(kept)[i] == r;
    }
  }

  /** Rules whose ids are all listed for removal all go. */
  lemma {:induction false} KeepUnlistedNone(installed: seq<Rule>, ids: seq<int>)
    requires forall i :: 0 <= i < |installed| ==> installed[i].id in ids
    ensures KeepUnlisted(installed, ids) == []
  {
    if installed != [] {
      KeepUnlistedNone(installed[1..], ids);
    }
  }

  /** The replace request lists for removal exactly the ids of the installed
      rules, and once applied leaves exactly the projection of the list
      installed. */
  lemma UpdateReplacesAll(existing: seq<Rule>, list: seq<BlockedSite>)
    ensures forall k :: k in ComputeUpdate(existing, list).removeRuleIds <==> exists r :: r in existing && r.id == k
    ensures ApplyUpdate(existing, ComputeUpdate(existing, list)) == RulesToAdd(list)
  {
    var ids := RuleIds(existing);
    forall r | r in existing
      ensures r.id in ids
    {
      var i :| 0 <= i < |existing| && existing[i] == r;
      assert ids[i] == r.id;
    }
    forall k | k in ids
      ensures exists r :: r in existing && r.id == k
    {
      var i :| 0 <= i < |ids| && ids[i] == k;
      assert existing[i] in existing;
    }
    KeepUnlistedNone(existing, ids);
  }
}
