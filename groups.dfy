/** The group hierarchy of problem_4.py: a group has a name, a list of
    subgroups and a list of users, and `is_user_in_group` searches a group
    and everything below it. A hierarchy is a finite tree of values. */
module Groups {
  import opened Wrappers

  /** `Group`: the name (`None` is allowed), the subgroups and the users. */
  datatype Group<U> = Group(name: Option<string>, groups: seq<Group<U>>, users: seq<U>)

  /** `Group(_name)`: a group with no subgroups and no users. */
  function NewGroup<U>(name: Option<string>): Group<U> {
    Group(name, [], [])
  }

  /** `add_group`: `sub` is appended to the subgroups. */
  function AddGroup<U>(g: Group<U>, sub: Group<U>): (r: Group<U>)
    ensures r.groups == g.groups + [sub] && r.users == g.users && r.name == g.name
  {
    g.(groups := g.groups + [sub])
  }

  /** `add_user`: `user` is appended to the users. */
  function AddUser<U>(g: Group<U>, user: U): (r: Group<U>)
    ensures r.users == g.users + [user] && r.groups == g.groups && r.name == g.name
  {
    g.(users := g.users + [user])
  }

  /** `is_user_in_group`: the user is one of the group's own users, or some
      subgroup, searched in order, contains the user. */
  predicate IsUserInGroup<U(==)>(user: U, group: Group<U>) {
    if user in group.users then true
    else if |group.groups| > 0 then
      exists i :: 0 <= i < |group.groups| && IsUserInGroup(user, group.groups[i])
    else false
  }

  /** The group reached from `g` by taking, at each level, the subgroup at
      the next index of `path`. */
  function Descend<U>(g: Group<U>, path: seq<nat>): Option<Group<U>>
    decreases |path|
  {
    if path == [] then Some(g)
    else if path[0] < |g.groups| then Descend(g.groups[path[0]], path[1..])
    else None
  }

  /** `user` is a user of `g` or of some group below it. */
  ghost predicate Member<U>(user: U, g: Group<U>) {
    exists path :: Descend(g, path).Some? && user in Descend(g, path).value.users
  }

  /** A user found by the search is a user of some group below. */
  lemma {:induction false} FoundHasPath<U>(user: U, g: Group<U>) returns (path: seq<nat>)
    requires IsUserInGroup(user, g)
    ensures Descend(g, path).Some? && user in Descend(g, path).value.users
    decreases g
  {
    if user in g.users {
      path := [];
    } else {
      var i :| 0 <= i < |g.groups| && IsUserInGroup(user, g.groups[i]);
      var rest := FoundHasPath(user, g.groups[i]);
      path := [i] + rest;
      assert path[1..] == rest;
    }
  }

  /** A user of any group below is found by the search. */
  lemma {:induction false} PathIsFound<U>(user: U, g: Group<U>, path: seq<nat>)
    requires Descend(g, path).Some? && user in Descend(g, path).value.users
    ensures IsUserInGroup(user, g)
    decreases |path|
  {
    if path != [] {
      PathIsFound(user, g.groups[path[0]], path[1..]);
    }
  }

  /** The search finds exactly the users of the group and of the groups
      below it. */
  lemma Membership<U>(user: U, g: Group<U>)
    ensures IsUserInGroup(user, g) <==> Member(user, g)
  {
    if IsUserInGroup(user, g) {
      var path := FoundHasPath(user, g);
    }
    if Member(user, g) {
      var path :| Descend(g, path).Some? && user in Descend(g, path).value.users;
      PathIsFound(user, g, path);
    }
  }

  /** A fresh group contains no user. */
  lemma NewGroupIsEmpty<U>(user: U, name: Option<string>)
    ensures !IsUserInGroup(user, NewGroup(name))
    ensures !Member(user, NewGroup<U>(name))
  {
    Membership(user, NewGroup<U>(name));
  }

  /** After `add_user`, the group contains the new user and the users it
      contained before, and nobody else. */
  lemma AddUserMembership<U>(g: Group<U>, user: U, other: U)
    ensures IsUserInGroup(other, AddUser(g, user)) <==> other == user || IsUserInGroup(other, g)
  {
    var r := AddUser(g, user);
    assert other in r.users <==> other in g.users || other == user;
  }

  /** After `add_group`, the group contains the users it contained before
      and those of the added subgroup, and nobody else. */
  lemma AddGroupMembership<U>(g: Group<U>, sub: Group<U>, user: U)
    ensures IsUserInGroup(user, AddGroup(g, sub)) <==> IsUserInGroup(user, g) || IsUserInGroup(user, sub)
  {
    var r := AddGroup(g, sub);
    assert r.groups[|g.groups|] == sub;
    assert forall i :: 0 <= i < |g.groups| ==> r.groups[i] == g.groups[i];
    if IsUserInGroup(user, r) && user !in g.users {
      var i :| 0 <= i < |r.groups| && IsUserInGroup(user, r.groups[i]);
      if i < |g.groups| {
        assert IsUserInGroup(user, g.groups[i]);
      }
    }
  }

  /** The hierarchy of the big test: a grandparent above a parent above two
      children with two users each. Built bottom-up, since a subgroup is
      added as the value it holds at that moment. */
  function BigFamily(): Group<string> {
    var first := AddUser(AddUser(NewGroup(Some("first_child")), "kid_1"), "kid_2");
    var second := AddUser(AddUser(NewGroup(Some("second_child")), "kid_3"), "kid_4");
    var parent := AddGroup(AddGroup(NewGroup(Some("parent")), first), second);
    AddGroup(NewGroup(Some("grandpa")), parent)
  }

  /** The search looks neither upward nor sideways: each child of the big
      test's parent holds its own two users and neither of its sibling's. */
  lemma BigFamilyChildren()
    ensures var first, second := BigFamily().groups[0].groups[0], BigFamily().groups[0].groups[1];
      && IsUserInGroup("kid_1", first) && IsUserInGroup("kid_2", first)
      && !IsUserInGroup("kid_3", first) && !IsUserInGroup("kid_4", first)
      && !IsUserInGroup("kid_1", second) && !IsUserInGroup("kid_2", second)
      && IsUserInGroup("kid_3", second) && IsUserInGroup("kid_4", second)
  {
    var parent := BigFamily().groups[0];
    assert parent.groups[0].users == ["kid_1", "kid_2"] && parent.groups[0].groups == [];
    assert parent.groups[1].users == ["kid_3", "kid_4"] && parent.groups[1].groups == [];
  }

  /** The parent and the grandparent of the big test hold all four users,
      and a user who was never added is in neither. */
  lemma BigFamilyElders()
    ensures forall u :: IsUserInGroup(u, BigFamily().groups[0]) <==> u in ["kid_1", "kid_2", "kid_3", "kid_4"]
    ensures forall u :: IsUserInGroup(u, BigFamily()) <==> u in ["kid_1", "kid_2", "kid_3", "kid_4"]
  {
    var parent := BigFamily().groups[0];
    var first, second := parent.groups[0], parent.groups[1];
    forall u
      ensures IsUserInGroup(u, parent) <==> u in ["kid_1", "kid_2", "kid_3", "kid_4"]
    {
      AddGroupMembership(AddGroup(NewGroup(Some("parent")), first), second, u);
      AddGroupMembership(NewGroup(Some("parent")), first, u);
      NewGroupIsEmpty(u, Some("parent"));
      assert first.users == ["kid_1", "kid_2"] && first.groups == [];
      assert second.users == ["kid_3", "kid_4"] && second.groups == [];
    }
    forall u
      ensures IsUserInGroup(u, BigFamily()) <==> IsUserInGroup(u, parent)
    {
      AddGroupMembership(NewGroup(Some("grandpa")), parent, u);
      NewGroupIsEmpty(u, Some("grandpa"));
    }
  }

  /** Whatever a subgroup contains, its parent contains too. */
  lemma ParentContainsChild<U>(parent: Group<U>, i: nat, user: U)
    requires i < |parent.groups|
    requires IsUserInGroup(user, parent.groups[i])
    ensures IsUserInGroup(user, parent)
  {
  }
}
