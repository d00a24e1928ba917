/** The project search tool: group the names of the active projects found by a
    search under their parent resources. */
module ProjectGroups {

  /** One search result: the project's name, its parent resource and its
      lifecycle state. */
  datatype Project = Project(name: string, parent: string, state: string)

  /** The only state whose projects are kept. */
  const Active := "ACTIVE"

  /** The group stored under `key`, or the empty list when there is none (Go's
      zero value for a missing map key). */
  function Lookup(m: map<string, seq<string>>, key: string): seq<string>
  {
    if key in m then m[key] else []
  }

  /** The grouping after the single pass over `projects`: each active project's
      name appended to the group of its parent. */
  function Grouped(projects: seq<Project>): map<string, seq<string>>
  {
    if projects == [] then map[]
    else
      var m := Grouped(projects[..|projects| - 1]);
      var p := projects[|projects| - 1];
      if p.state == Active then m[p.parent := Lookup(m, p.parent) + [p.name]] else m
  }

  /** The grouping loop: one pass over the search results, appending the name of
      every active project to the list kept for its parent. */
  method GroupActive(projects: seq<Project>) returns (projMap: map<string, seq<string>>)
    ensures projMap == Grouped(projects)
  {
    projMap := map[];
    var i := 0;
    while i < |projects|
      invariant 0 <= i <= |projects|
      invariant projMap == Grouped(projects[..i])
    {
      var project := projects[i];
      assert projects[..i + 1][..i] == projects[..i];
      if project.state == Active {
        projMap := projMap[project.parent := Lookup(projMap, project.parent) + [project.name]];
      }
      i := i + 1;
    }
    assert projects[..i] == projects;
  }

  /** Reference definition: the names of the active projects under `parent`, in
      search order. */
  function ActiveUnder(projects: seq<Project>, parent: string): seq<string>
  {
    if projects == [] then []
    else
      var p := projects[|projects| - 1];
      ActiveUnder(projects[..|projects| - 1], parent) +
      (if p.state == Active && p.parent == parent then [p.name] else [])
  }

  /** The parents of the active projects. */
  function ActiveParents(projects: seq<Project>): set<string>
  {
    set i | 0 <= i < |projects| && projects[i].state == Active :: projects[i].parent
  }

  /** The number of active projects. */
  function ActiveCount(projects: seq<Project>): nat
  {
    if projects == [] then 0
    else ActiveCount(projects[..|projects| - 1]) + (if projects[|projects| - 1].state == Active then 1 else 0)
  }

  /** The one-pass grouping agrees with filtering the results per parent: its
      keys are exactly the parents of active projects, and each group lists the
      active projects under that parent in search order. */
  lemma {:induction false} GroupedIsFiltered(projects: seq<Project>)
    ensures Grouped(projects).Keys == ActiveParents(projects)
    ensures forall k :: Lookup(Grouped(projects), k) == ActiveUnder(projects, k)
  {
    if projects != [] {
      var front := projects[..|projects| - 1];
      var p := projects[|projects| - 1];
      GroupedIsFiltered(front);
      assert forall i :: 0 <= i < |front| ==> front[i] == projects[i];
      assert ActiveParents(projects) ==
             ActiveParents(front) + (if p.state == Active then {p.parent} else {}) by {
        assert forall x :: x in ActiveParents(projects) ==>
                 x in ActiveParents(front) || (p.state == Active && x == p.parent);
        if p.state == Active {
          assert projects[|projects| - 1].parent in ActiveParents(projects);
        }
      }
    }
  }

  /** A name under an active search result's parent: a project name `x` is in
      the group of `k` exactly when an active project named `x` has parent `k`. */
  lemma {:induction false} ActiveUnderMembership(projects: seq<Project>, k: string, x: string)
    ensures x in ActiveUnder(projects, k) <==>
            exists i :: 0 <= i < |projects| && projects[i] == Project(x, k, Active)
  {
    if projects != [] {
      var front := projects[..|projects| - 1];
      ActiveUnderMembership(front, k, x);
      assert forall i :: 0 <= i < |front| ==> front[i] == projects[i];
      if projects[|projects| - 1] == Project(x, k, Active) {
        assert 0 <= |projects| - 1 < |projects| && projects[|projects| - 1] == Project(x, k, Active);
      }
      if exists i :: 0 <= i < |projects| && projects[i] == Project(x, k, Active) {
        var i :| 0 <= i < |projects| && projects[i] == Project(x, k, Active);
        if i < |front| {
          assert front[i] == Project(x, k, Active);
        }
      }
    }
  }

  /** Only active projects appear in any group, and every active project's name
      appears in the group of its own parent. */
  lemma GroupsHoldExactlyActive(projects: seq<Project>, k: string, x: string)
    ensures (k in Grouped(projects) && x in Grouped(projects)[k]) <==>
            exists i :: 0 <= i < |projects| && projects[i] == Project(x, k, Active)
  {
    GroupedIsFiltered(projects);
    ActiveUnderMembership(projects, k, x);
    assert Lookup(Grouped(projects), k) == ActiveUnder(projects, k);
  }

  /** No group is empty. */
  lemma NoEmptyGroup(projects: seq<Project>, k: string)
    requires k in Grouped(projects)
    ensures Grouped(projects)[k] != []
  {
    GroupedIsFiltered(projects);
    var i :| 0 <= i < |projects| && projects[i].state == Active && projects[i].parent == k;
    ActiveUnderMembership(projects, k, projects[i].name);
    assert projects[i] == Project(projects[i].name, k, Active);
    assert Lookup(Grouped(projects), k) == ActiveUnder(projects, k);
  }

  /** Filtering a concatenation of results is filtering each part in turn. */
  lemma {:induction false} ActiveUnderAppend(ps: seq<Project>, qs: seq<Project>, k: string)
    ensures ActiveUnder(ps + qs, k) == ActiveUnder(ps, k) + ActiveUnder(qs, k)
  {
    if qs == [] {
      assert ps + qs == ps;
    } else {
      var qs' := qs[..|qs| - 1];
      assert (ps + qs)[..|ps + qs| - 1] == ps + qs';
      assert (ps + qs)[|ps + qs| - 1] == qs[|qs| - 1];
      ActiveUnderAppend(ps, qs', k);
    }
  }

  /** Groups keep search order: the names contributed by earlier results come
      before those of later results, each part in its own order. */
  lemma GroupKeepsOrder(ps: seq<Project>, qs: seq<Project>, k: string)
    ensures Lookup(Grouped(ps + qs), k) == Lookup(Grouped(ps), k) + ActiveUnder(qs, k)
  {
    GroupedIsFiltered(ps + qs);
    GroupedIsFiltered(ps);
    ActiveUnderAppend(ps, qs, k);
  }

  /** An inactive search result leaves the grouping unchanged. */
  lemma InactiveLeavesGroups(projects: seq<Project>, p: Project)
    requires p.state != Active
    ensures Grouped(projects + [p]) == Grouped(projects)
  {
    assert (projects + [p])[..|projects|] == projects;
  }

  /** The number of names over all groups. */
  ghost function Total(m: map<string, seq<string>>): nat
    decreases |m|
  {
    if m == map[] then 0
    else
      var k :| k in m;
      assert |m.Keys - {k}| == |m.Keys| - 1;
      |m[k]| + Total(m - {k})
  }

  /** Counting may start from any key. */
  lemma {:induction false} TotalWithout(m: map<string, seq<string>>, k: string)
    requires k in m
    ensures Total(m) == |m[k]| + Total(m - {k})
    decreases |m|
  {
    var j :| j in m && Total(m) == |m[j]| + Total(m - {j});
    if j != k {
      assert |(m - {j}).Keys| == |m.Keys| - 1;
      assert |(m - {k}).Keys| == |m.Keys| - 1;
      TotalWithout(m - {j}, k);
      TotalWithout(m - {k}, j);
      assert m - {j} - {k} == m - {k} - {j};
    }
  }

  /** Replacing one group changes the total by the change in that group's size. */
  lemma TotalUpdate(m: map<string, seq<string>>, k: string, v: seq<string>)
    ensures Total(m[k := v]) + |Lookup(m, k)| == Total(m) + |v|
  {
    TotalWithout(m[k := v], k);
    if k in m {
      TotalWithout(m, k);
      assert m[k := v] - {k} == m - {k};
    } else {
      assert m[k := v] - {k} == m;
    }
  }

  /** The groups hold, all together, as many names as there are active projects. */
  lemma {:induction false} TotalIsActiveCount(projects: seq<Project>)
    ensures Total(Grouped(projects)) == ActiveCount(projects)
  {
    if projects != [] {
      var front := projects[..|projects| - 1];
      var p := projects[|projects| - 1];
      TotalIsActiveCount(front);
      if p.state == Active {
        TotalUpdate(Grouped(front), p.parent, Lookup(Grouped(front), p.parent) + [p.name]);
      }
    } else {
      assert Grouped(projects) == map[];
    }
  }
}
