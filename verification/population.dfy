/** The population registry of vcf/population.py: a forward map from individual
    to group and, per group, the list of its individuals. */
module Populations {
  import opened Itertools

  /** One `add_individual(identifier, group)` call. */
  type Entry = (string, string)

  function IdsOf(log: seq<Entry>): (r: seq<string>)
    ensures |r| == |log| && forall k :: 0 <= k < |log| ==> r[k] == log[k].0
  {
    seq(|log|, k requires 0 <= k < |log| => log[k].0)
  }

  function GroupsOf(log: seq<Entry>): (r: seq<string>)
    ensures |r| == |log| && forall k :: 0 <= k < |log| ==> r[k] == log[k].1
  {
    seq(|log|, k requires 0 <= k < |log| => log[k].1)
  }

  /** `individual_to_group` after the calls in `log`: a later call overwrites. */
  function ForwardOf(log: seq<Entry>): map<string, string>
  {
    if |log| == 0 then map[]
    else ForwardOf(log[..|log| - 1])[log[|log| - 1].0 := log[|log| - 1].1]
  }

  /** `group_to_individuals[g]` after the calls in `log`: every call for `g`
      appends, in call order. */
  function MembersOf(log: seq<Entry>, g: string): seq<string>
  {
    if |log| == 0 then []
    else MembersOf(log[..|log| - 1], g) + (if log[|log| - 1].1 == g then [log[|log| - 1].0] else [])
  }

  /** `has_individual(x)` holds exactly for the identifiers that were added. */
  lemma {:induction false} ForwardKeys(log: seq<Entry>, x: string)
    ensures x in ForwardOf(log) <==> x in IdsOf(log)
  {
    if |log| > 0 {
      var init := log[..|log| - 1];
      ForwardKeys(init, x);
      assert IdsOf(log) == IdsOf(init) + [log[|log| - 1].0];
    }
  }

  /** The group recorded for `x` is the one given in the last call that added `x`. */
  lemma {:induction false} ForwardLastWins(log: seq<Entry>, i: nat)
    requires i < |log|
    requires forall j :: i < j < |log| ==> log[j].0 != log[i].0
    ensures log[i].0 in ForwardOf(log) && ForwardOf(log)[log[i].0] == log[i].1
  {
    if i < |log| - 1 {
      ForwardLastWins(log[..|log| - 1], i);
    }
  }

  /** A group's list holds exactly the identifiers added with that group. */
  lemma {:induction false} MembersExactly(log: seq<Entry>, g: string, x: string)
    ensures x in MembersOf(log, g) <==> (x, g) in log
  {
    if |log| > 0 {
      var init := log[..|log| - 1];
      MembersExactly(init, g, x);
      assert log == init + [log[|log| - 1]];
    }
  }

  /** Under the documented precondition (no identifier added twice) the two maps
      agree: each individual sits in the list of its own group and in no other. */
  lemma {:induction false} ConsistentWhenUnique(log: seq<Entry>, x: string, g: string)
    requires Distinct(IdsOf(log))
    ensures x in MembersOf(log, g) <==> x in ForwardOf(log) && ForwardOf(log)[x] == g
  {
    MembersExactly(log, g, x);
    if (x, g) in log {
      var i :| 0 <= i < |log| && log[i] == (x, g);
      forall j | i < j < |log| ensures log[j].0 != log[i].0 {
        assert IdsOf(log)[i] != IdsOf(log)[j];
      }
      ForwardLastWins(log, i);
    }
    if x in ForwardOf(log) && ForwardOf(log)[x] == g {
      ForwardHasEntry(log, x);
    }
  }

  /** The recorded group of `x` comes from some call that added `x`. */
  lemma {:induction false} ForwardHasEntry(log: seq<Entry>, x: string)
    requires x in ForwardOf(log)
    ensures (x, ForwardOf(log)[x]) in log
  {
    var init := log[..|log| - 1];
    if log[|log| - 1].0 != x {
      ForwardHasEntry(init, x);
      assert log == init + [log[|log| - 1]];
    }
  }

  /** Without the precondition the maps drift apart: re-adding `x` to another
      group moves the forward entry but leaves `x` in the old group's list. */
  lemma ReAddLeavesStaleEntry(x: string, a: string, b: string)
    requires a != b
    ensures ForwardOf([(x, a), (x, b)])[x] == b
    ensures x in MembersOf([(x, a), (x, b)], a)
  {
    assert [(x, a), (x, b)][..1] == [(x, a)];
  }

  lemma IdsSnoc(log: seq<Entry>, e: Entry)
    ensures IdsOf(log + [e]) == IdsOf(log) + [e.0]
    ensures GroupsOf(log + [e]) == GroupsOf(log) + [e.1]
  {
  }

  lemma ForwardSnoc(log: seq<Entry>, e: Entry)
    ensures ForwardOf(log + [e]) == ForwardOf(log)[e.0 := e.1]
  {
    assert (log + [e])[..|log|] == log;
  }

  lemma MembersSnoc(log: seq<Entry>, e: Entry, h: string)
    ensures MembersOf(log + [e], h) == MembersOf(log, h) + (if h == e.1 then [e.0] else [])
  {
    assert (log + [e])[..|log|] == log;
  }

  /** A group never named has an empty list. */
  lemma {:induction false} NoGroupNoMembers(log: seq<Entry>, g: string)
    requires g !in GroupsOf(log)
    ensures MembersOf(log, g) == []
  {
    if |log| > 0 {
      var init := log[..|log| - 1];
      assert GroupsOf(init) == GroupsOf(log)[..|log| - 1];
      NoGroupNoMembers(init, g);
      assert GroupsOf(log)[|log| - 1] == log[|log| - 1].1;
    }
  }

  /** The four structures of the registry are those the calls in `log` build. */
  ghost predicate Represents(toGroup: map<string, string>, individualOrder: seq<string>,
                             groupOrder: seq<string>, lists: map<string, seq<string>>, log: seq<Entry>)
  {
    && toGroup == ForwardOf(log)
    && individualOrder == Unique(IdsOf(log))
    && groupOrder == Unique(GroupsOf(log))
    && (forall g :: g in lists <==> g in groupOrder)
    && (forall g :: g in lists ==> lists[g] == MembersOf(log, g))
  }

  /** `group_to_individuals[group].append(identifier)` on a defaultdict. */
  function Appended(lists: map<string, seq<string>>, identifier: string, group: string): seq<string>
  {
    (if group in lists then lists[group] else []) + [identifier]
  }

  lemma AddMembers(lists: map<string, seq<string>>, groupOrder: seq<string>, log: seq<Entry>, x: string, g: string)
    requires groupOrder == Unique(GroupsOf(log))
    requires forall h :: h in lists <==> h in groupOrder
    requires forall h :: h in lists ==> lists[h] == MembersOf(log, h)
    ensures forall h :: h in lists[g := Appended(lists, x, g)] ==>
              lists[g := Appended(lists, x, g)][h] == MembersOf(log + [(x, g)], h)
  {
    var e := (x, g);
    if g !in lists { NoGroupNoMembers(log, g); }
    forall h | h in lists[g := Appended(lists, x, g)]
      ensures lists[g := Appended(lists, x, g)][h] == MembersOf(log + [e], h)
    {
      MembersSnoc(log, e, h);
    }
  }

  /** `add_individual` keeps the structures in step with the log of calls. */
  lemma AddRepresents(toGroup: map<string, string>, individualOrder: seq<string>, groupOrder: seq<string>,
                      lists: map<string, seq<string>>, log: seq<Entry>, x: string, g: string)
    requires Represents(toGroup, individualOrder, groupOrder, lists, log)
    ensures Represents(toGroup[x := g],
                       if x in individualOrder then individualOrder else individualOrder + [x],
                       if g in lists then groupOrder else groupOrder + [g],
                       lists[g := Appended(lists, x, g)], log + [(x, g)])
  {
    var e := (x, g);
    IdsSnoc(log, e);
    ForwardSnoc(log, e);
    UniqueSnoc(IdsOf(log), x);
    UniqueSnoc(GroupsOf(log), g);
    AddMembers(lists, groupOrder, log, x, g);
  }

  /** The registry. `added` records every `add_individual` call; `Valid` ties
      the four concrete structures to it. */
  class Population {
    var individualToGroup: map<string, string>
    var individualOrder: seq<string>   // key order of individual_to_group
    var groupOrder: seq<string>        // key order of group_to_individuals
    var groupToIndividuals: map<string, seq<string>>
    ghost var added: seq<Entry>

    ghost predicate Valid()
      reads this
    {
      Represents(individualToGroup, individualOrder, groupOrder, groupToIndividuals, added)
    }

    constructor ()
      ensures Valid() && added == []
    {
      individualToGroup := map[];
      individualOrder := [];
      groupOrder := [];
      groupToIndividuals := map[];
      added := [];
    }

    /** `add_individual(identifier, group)`: the forward entry is (re)set and the
        identifier appended to its group's list; no other list changes. */
    method AddIndividual(identifier: string, group: string)
      requires Valid()
      modifies this
      ensures Valid()
      ensures added == old(added) + [(identifier, group)]
      ensures individualToGroup == old(individualToGroup)[identifier := group]
      ensures groupToIndividuals == old(groupToIndividuals)[group := Appended(old(groupToIndividuals), identifier, group)]
    {
      AddRepresents(individualToGroup, individualOrder, groupOrder, groupToIndividuals, added, identifier, group);
      individualToGroup := individualToGroup[identifier := group];
      if identifier !in individualOrder {
        individualOrder := individualOrder + [identifier];
      }
      if group !in groupToIndividuals {
        groupOrder := groupOrder + [group];
      }
      groupToIndividuals := groupToIndividuals[group := Appended(groupToIndividuals, identifier, group)];
      added := added + [(identifier, group)];
    }

    /** `individuals()`: every added identifier once, in order of first insertion. */
    function Individuals(): (r: seq<string>)
      reads this
      requires Valid()
      ensures Distinct(r)
      ensures forall x :: x in r <==> x in IdsOf(added)
    {
      assert forall x :: x in individualOrder ==> x in IdsOf(added);
      individualOrder
    }

    /** `groups()`: every group used once, in order of first insertion. */
    function Groups(): (r: seq<string>)
      reads this
      requires Valid()
      ensures Distinct(r)
      ensures forall g :: g in r <==> g in GroupsOf(added)
    {
      assert forall g :: g in groupOrder ==> g in GroupsOf(added);
      groupOrder
    }

    /** `items()`: each group, in `groups()` order, with its list of individuals. */
    function Items(): (r: seq<(string, seq<string>)>)
      reads this
      requires Valid()
      ensures |r| == |groupOrder|
      ensures forall k :: 0 <= k < |r| ==> r[k] == (groupOrder[k], MembersOf(added, groupOrder[k]))
    {
      var order, lists := groupOrder, groupToIndividuals;
      seq(|order|, k requires 0 <= k < |order| && order[k] in lists => (order[k], lists[order[k]]))
    }

    /** `has_individual(x)`: whether `x` was ever added. */
    function HasIndividual(x: string): (b: bool)
      reads this
      requires Valid()
      ensures b <==> x in IdsOf(added)
    {
      ForwardKeys(added, x);
      x in individualToGroup
    }
  }
}
