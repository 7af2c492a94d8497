/** RoundRobinApp: the contact, group and workflow lists of the contact
    manager, the routing of a new contact through the workflows to a group
    and one of its reps, and the edits of the lists. */
module RoundRobin {
  import opened Options
  import opened Seqs
  import opened Conditions
  import opened Weighting

  /** A group of reps that contacts can be routed to. */
  datatype Group = Group(id: string, name: string, members: seq<Member>)

  /** A rule that routes every contact matching all conditions to a group. */
  datatype Workflow = Workflow(id: string, name: string, groupId: string, conditions: seq<Condition>)

  function GroupId(g: Group): string {
    g.id
  }

  function WorkflowId(w: Workflow): string {
    w.id
  }

  /** this.workflows.find(workflow => this.checkWorkflowConditions(contact, workflow)) */
  function MatchingWorkflow(contact: Contact, workflows: seq<Workflow>): (r: Option<nat>)
    ensures r.Some? ==> (r.value < |workflows| && MatchesAll(contact, workflows[r.value].conditions)
      && forall j :: 0 <= j < r.value ==> !MatchesAll(contact, workflows[j].conditions))
    ensures r.None? <==> forall j :: 0 <= j < |workflows| ==> !MatchesAll(contact, workflows[j].conditions)
  {
    FindFirst(workflows, (w: Workflow) => MatchesAll(contact, w.conditions))
  }

  /** this.groups.find(g => g.id === id) */
  function GroupWithId(groups: seq<Group>, id: string): (r: Option<nat>)
    ensures r.Some? ==> r.value < |groups| && groups[r.value].id == id && forall j :: 0 <= j < r.value ==> groups[j].id != id
    ensures r.None? <==> forall j :: 0 <= j < |groups| ==> groups[j].id != id
  {
    FindFirst(groups, (g: Group) => g.id == id)
  }

  /** this.groups.find(g => g.name === name) */
  function GroupNamed(groups: seq<Group>, name: string): (r: Option<nat>)
    ensures r.Some? ==> r.value < |groups| && groups[r.value].name == name && forall j :: 0 <= j < r.value ==> groups[j].name != name
    ensures r.None? <==> forall j :: 0 <= j < |groups| ==> groups[j].name != name
  {
    FindFirst(groups, (g: Group) => g.name == name)
  }

  /** group.members.find(m => m.repId === repId) */
  function MemberWithRep(ms: seq<Member>, repId: string): (r: Option<nat>)
    ensures r.Some? ==> r.value < |ms| && ms[r.value].repId == repId && forall j :: 0 <= j < r.value ==> ms[j].repId != repId
    ensures r.None? <==> forall j :: 0 <= j < |ms| ==> ms[j].repId != repId
  {
    FindFirst(ms, (m: Member) => m.repId == repId)
  }

  /** The owner assignContactToOwner leaves on the contact. */
  function Route(contacts: seq<Contact>, groups: seq<Group>, workflows: seq<Workflow>, contact: Contact): Option<string> {
    match MatchingWorkflow(contact, workflows)
    case Some(i) =>
      (match GroupWithId(groups, workflows[i].groupId)
       case Some(g) => NextOwner(contacts, groups[g].members)
       case None => contact.owner)
    case None =>
      (match GroupNamed(groups, "Default")
       case Some(g) => NextOwner(contacts, groups[g].members)
       case None => contact.owner)
  }

  /** The first workflow whose conditions all match is the one found. */
  lemma MatchingWorkflowIs(contact: Contact, workflows: seq<Workflow>, i: nat)
    requires i < |workflows| && MatchesAll(contact, workflows[i].conditions)
    requires forall j :: 0 <= j < i ==> !MatchesAll(contact, workflows[j].conditions)
    ensures MatchingWorkflow(contact, workflows) == Some(i)
  {
  }

  /** The first group with the id is the one found. */
  lemma GroupWithIdIs(groups: seq<Group>, id: string, g: nat)
    requires g < |groups| && groups[g].id == id
    requires forall j :: 0 <= j < g ==> groups[j].id != id
    ensures GroupWithId(groups, id) == Some(g)
  {
  }

  /** The first group with the name is the one found. */
  lemma GroupNamedIs(groups: seq<Group>, name: string, g: nat)
    requires g < |groups| && groups[g].name == name
    requires forall j :: 0 <= j < g ==> groups[j].name != name
    ensures GroupNamed(groups, name) == Some(g)
  {
  }

  /** The first matching workflow decides: its group (the first with its id)
      picks the owner. */
  lemma FirstMatchRoutes(contacts: seq<Contact>, groups: seq<Group>, workflows: seq<Workflow>, contact: Contact, i: nat, g: nat)
    requires i < |workflows| && MatchesAll(contact, workflows[i].conditions)
    requires forall j :: 0 <= j < i ==> !MatchesAll(contact, workflows[j].conditions)
    requires g < |groups| && groups[g].id == workflows[i].groupId
    requires forall j :: 0 <= j < g ==> groups[j].id != workflows[i].groupId
    ensures Route(contacts, groups, workflows, contact) == NextOwner(contacts, groups[g].members)
  {
    MatchingWorkflowIs(contact, workflows, i);
    GroupWithIdIs(groups, workflows[i].groupId, g);
  }

  /** When the first matching workflow names a group that does not exist the
      owner is left as it was: the 'Default' group is not tried. */
  lemma DanglingWorkflowKeepsOwner(contacts: seq<Contact>, groups: seq<Group>, workflows: seq<Workflow>, contact: Contact, i: nat)
    requires i < |workflows| && MatchesAll(contact, workflows[i].conditions)
    requires forall j :: 0 <= j < i ==> !MatchesAll(contact, workflows[j].conditions)
    requires forall j :: 0 <= j < |groups| ==> groups[j].id != workflows[i].groupId
    ensures Route(contacts, groups, workflows, contact) == contact.owner
  {
    MatchingWorkflowIs(contact, workflows, i);
  }

  /** With no matching workflow the first group named 'Default' picks the
      owner. */
  lemma DefaultWhenNoMatch(contacts: seq<Contact>, groups: seq<Group>, workflows: seq<Workflow>, contact: Contact, g: nat)
    requires forall j :: 0 <= j < |workflows| ==> !MatchesAll(contact, workflows[j].conditions)
    requires g < |groups| && groups[g].name == "Default"
    requires forall j :: 0 <= j < g ==> groups[j].name != "Default"
    ensures Route(contacts, groups, workflows, contact) == NextOwner(contacts, groups[g].members)
  {
    assert MatchingWorkflow(contact, workflows).None?;
    GroupNamedIs(groups, "Default", g);
  }

  /** With no matching workflow and no 'Default' group nobody is routed. */
  lemma UnroutedKeepsOwner(contacts: seq<Contact>, groups: seq<Group>, workflows: seq<Workflow>, contact: Contact)
    requires forall j :: 0 <= j < |workflows| ==> !MatchesAll(contact, workflows[j].conditions)
    requires forall j :: 0 <= j < |groups| ==> groups[j].name != "Default"
    ensures Route(contacts, groups, workflows, contact) == contact.owner
  {
  }

  /** Deleting the group a workflow routes to strands the workflow: contacts
      it matches first keep their owner. */
  lemma DeletedGroupStrandsWorkflow(contacts: seq<Contact>, groups: seq<Group>, workflows: seq<Workflow>, contact: Contact, i: nat)
    requires i < |workflows| && MatchesAll(contact, workflows[i].conditions)
    requires forall j :: 0 <= j < i ==> !MatchesAll(contact, workflows[j].conditions)
    ensures Route(contacts, Without(groups, GroupId, workflows[i].groupId), workflows, contact) == contact.owner
  {
    var rest := Without(groups, GroupId, workflows[i].groupId);
    assert forall j :: 0 <= j < |rest| ==> rest[j] in rest;
    DanglingWorkflowKeepsOwner(contacts, rest, workflows, contact, i);
  }

  /** The contact handleCreateContact builds: no owner yet, and 'N/A' for an
      empty company. */
  function NewContact(id: string, firstName: string, lastName: string, email: string, company: string, createdAt: string): (c: Contact)
    ensures c.owner.None? && c.company != ""
    ensures company != "" ==> c.company == company
    ensures c.id == id && c.firstName == firstName && c.lastName == lastName && c.email == email && c.createdAt == createdAt
  {
    Contact(id, firstName, lastName, email, if company == "" then "N/A" else company, None, createdAt)
  }

  /** parseInt(newWeight) || 1: NaN (None) and 0 both become 1. */
  function ParsedWeight(parsed: Option<int>): (w: int)
    ensures w != 0
    ensures parsed.Some? && parsed.value != 0 ==> w == parsed.value
    ensures parsed.None? ==> w == 1
  {
    match parsed
    case Some(n) => if n == 0 then 1 else n
    case None => 1
  }

  /** The members of a new group: every selected rep with weight 1. */
  function DefaultMembers(reps: seq<string>): (ms: seq<Member>)
    ensures |ms| == |reps|
    ensures forall k :: 0 <= k < |ms| ==> ms[k].repId == reps[k] && ms[k].weight == 1
  {
    seq(|reps|, k requires 0 <= k < |reps| => Member(reps[k], 1))
  }

  /** A new group picks, for its first contact, the selected rep owning the
      fewest contacts, the earliest one among several. */
  lemma NewGroupPicksFewest(contacts: seq<Contact>, reps: seq<string>, i: nat)
    requires i < |reps|
    requires forall j :: 0 <= j < |reps| ==> OwnedCount(contacts, reps[i]) <= OwnedCount(contacts, reps[j])
    requires forall j :: 0 <= j < i ==> OwnedCount(contacts, reps[j]) > OwnedCount(contacts, reps[i])
    ensures NextOwner(contacts, DefaultMembers(reps)) == Some(reps[i])
  {
    EqualWeightsFewestOwned(contacts, DefaultMembers(reps), 1, i);
  }

  /** The groups after updateMemberWeight: the first member with repId in the
      first group with groupId gets the weight. Ids, names and rep ids all
      stay as they were. */
  function SetWeight(groups: seq<Group>, groupId: string, repId: string, weight: int): (r: seq<Group>)
    ensures |r| == |groups|
    ensures forall j :: 0 <= j < |r| ==>
      && r[j].id == groups[j].id && r[j].name == groups[j].name
      && |r[j].members| == |groups[j].members|
      && forall k :: 0 <= k < |r[j].members| ==> r[j].members[k].repId == groups[j].members[k].repId
  {
    match GroupWithId(groups, groupId)
    case None => groups
    case Some(g) =>
      var ms := groups[g].members;
      match MemberWithRep(ms, repId)
      case None => groups
      case Some(m) => groups[g := groups[g].(members := ms[m := ms[m].(weight := weight)])]
  }

  /** Only the named member of the named group changes, and it gets the
      weight; an unknown group or rep changes nothing. */
  lemma SetWeightChangesOnlyNamedMember(groups: seq<Group>, groupId: string, repId: string, weight: int)
    ensures var r := SetWeight(groups, groupId, repId, weight);
      forall j, k :: 0 <= j < |groups| && 0 <= k < |groups[j].members| ==>
        if GroupWithId(groups, groupId) == Some(j) && MemberWithRep(groups[j].members, repId) == Some(k)
        then r[j].members[k] == Member(repId, weight)
        else r[j].members[k] == groups[j].members[k]
    ensures (GroupWithId(groups, groupId).None? || MemberWithRep(groups[GroupWithId(groups, groupId).value].members, repId).None?)
      ==> SetWeight(groups, groupId, repId, weight) == groups
  {
  }

  /** The stored list, or [] when storage holds none. */
  function OrEmpty<T>(stored: Option<seq<T>>): seq<T> {
    if stored.Some? then stored.value else []
  }

  class RoundRobinApp {
    var contacts: seq<Contact>
    var groups: seq<Group>
    var workflows: seq<Workflow>

    /** The lists as loaded from storage, empty when nothing was stored. */
    constructor (storedContacts: Option<seq<Contact>>, storedGroups: Option<seq<Group>>, storedWorkflows: Option<seq<Workflow>>)
      ensures contacts == OrEmpty(storedContacts)
      ensures groups == OrEmpty(storedGroups)
      ensures workflows == OrEmpty(storedWorkflows)
    {
      contacts := OrEmpty(storedContacts);
      groups := OrEmpty(storedGroups);
      workflows := OrEmpty(storedWorkflows);
    }

    /** getNextOwnerInGroup(group) */
    method NextOwnerInGroup(group: Group) returns (owner: Option<string>)
      ensures owner == NextOwner(contacts, group.members)
    {
      var ms := group.members;
      if |ms| == 0 {
        return None;
      }
      var counts, keys := CountAssignments(contacts, ms);
      var totalWeight := SumWeights(ms);
      var totalAssigned := SumCounts(contacts, counts, keys);
      assert forall i :: 0 <= i < |ms| ==> ms[i].repId in RepIds(ms);
      var selected := SelectMember(contacts, ms, counts, totalAssigned, totalWeight);
      owner := if selected.Some? then Some(ms[selected.value].repId) else None;
    }

    /** assignContactToOwner(contact): the contact with the owner the
        workflows, or else the 'Default' group, pick. */
    method AssignContactToOwner(contact: Contact) returns (routed: Contact)
      ensures routed == contact.(owner := Route(contacts, groups, workflows, contact))
    {
      routed := contact;
      var matching := MatchingWorkflow(contact, workflows);
      if matching.Some? {
        var group := GroupWithId(groups, workflows[matching.value].groupId);
        if group.Some? {
          var owner := NextOwnerInGroup(groups[group.value]);
          routed := contact.(owner := owner);
        }
      } else {
        var defaultGroup := GroupNamed(groups, "Default");
        if defaultGroup.Some? {
          var owner := NextOwnerInGroup(groups[defaultGroup.value]);
          routed := contact.(owner := owner);
        }
      }
    }

    /** handleCreateContact: build the contact, route it, and append it. */
    method CreateContact(id: string, firstName: string, lastName: string, email: string, company: string, createdAt: string)
      modifies this
      ensures var c := NewContact(id, firstName, lastName, email, company, createdAt);
        contacts == old(contacts) + [c.(owner := Route(old(contacts), old(groups), old(workflows), c))]
      ensures groups == old(groups) && workflows == old(workflows)
    {
      var contact := NewContact(id, firstName, lastName, email, company, createdAt);
      contact := AssignContactToOwner(contact);
      contacts := contacts + [contact];
    }

    /** handleCreateGroup: every selected rep joins with weight 1; with no rep
        selected nothing is added. */
    method CreateGroup(id: string, name: string, selectedReps: seq<string>) returns (created: bool)
      modifies this
      ensures created <==> |selectedReps| > 0
      ensures groups == if created then old(groups) + [Group(id, name, DefaultMembers(selectedReps))] else old(groups)
      ensures contacts == old(contacts) && workflows == old(workflows)
    {
      var members: seq<Member> := [];
      for i := 0 to |selectedReps|
        invariant members == DefaultMembers(selectedReps[..i])
      {
        members := members + [Member(selectedReps[i], 1)];
      }
      assert selectedReps[..|selectedReps|] == selectedReps;
      if |members| == 0 {
        return false;
      }
      groups := groups + [Group(id, name, members)];
      created := true;
    }

    /** handleCreateWorkflow: a workflow without conditions is refused. */
    method CreateWorkflow(id: string, name: string, groupId: string, conditions: seq<Condition>) returns (created: bool)
      modifies this
      ensures created <==> |conditions| > 0
      ensures workflows == if created then old(workflows) + [Workflow(id, name, groupId, conditions)] else old(workflows)
      ensures contacts == old(contacts) && groups == old(groups)
    {
      if |conditions| == 0 {
        return false;
      }
      workflows := workflows + [Workflow(id, name, groupId, conditions)];
      created := true;
    }

    /** updateMemberWeight(groupId, repId, newWeight), given what
        parseInt(newWeight) returned (None for NaN). */
    method UpdateMemberWeight(groupId: string, repId: string, parsed: Option<int>)
      modifies this
      ensures groups == SetWeight(old(groups), groupId, repId, ParsedWeight(parsed))
      ensures contacts == old(contacts) && workflows == old(workflows)
    {
      var group := GroupWithId(groups, groupId);
      if group.None? {
        return;
      }
      var g := group.value;
      var member := MemberWithRep(groups[g].members, repId);
      if member.Some? {
        var m := member.value;
        var ms := groups[g].members;
        groups := groups[g := groups[g].(members := ms[m := ms[m].(weight := ParsedWeight(parsed))])];
      }
    }

    /** deleteGroup(groupId), once confirmed. */
    method DeleteGroup(groupId: string)
      modifies this
      ensures groups == Without(old(groups), GroupId, groupId)
      ensures contacts == old(contacts) && workflows == old(workflows)
    {
      groups := Without(groups, GroupId, groupId);
    }

    /** deleteWorkflow(workflowId), once confirmed. */
    method DeleteWorkflow(workflowId: string)
      modifies this
      ensures workflows == Without(old(workflows), WorkflowId, workflowId)
      ensures contacts == old(contacts) && groups == old(groups)
    {
      workflows := Without(workflows, WorkflowId, workflowId);
    }
  }
}
