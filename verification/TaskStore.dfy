/** BitBake's addtask and deltask on the task list and the "deps" flags of the datastore. */
module TaskStores {
  import opened Sorting
  import opened Tasks

  function FullName(task: string): string {
    if |task| >= 3 && task[..3] == "do_" then task else "do_" + task
  }

  predicate HasPrefix(task: string) {
    |task| >= 3 && task[0] == 'd' && task[1] == 'o' && task[2] == '_'
  }

  /** A task may be named with or without its prefix; it is listed with it, once. */
  lemma FullNameIs(task: string)
    ensures HasPrefix(FullName(task))
    ensures if HasPrefix(task) then FullName(task) == task
            else FullName(task) == FullName("do_" + task) && FullName(task)[3..] == task
  {
    assert |task| >= 3 ==> task[..3] == [task[0], task[1], task[2]];
    assert ("do_" + task)[..3] == "do_" && ("do_" + task)[3..] == task;
  }

  function Without(q: seq<string>, t: string): seq<string> {
    if q == [] then [] else if q[0] == t then q[1..] else [q[0]] + Without(q[1..], t)
  }

  /** list.remove takes the first occurrence; without repetition that is the only one. */
  lemma {:induction false} WithoutRemoves(q: seq<string>, t: string)
    requires NoRepeat(q)
    ensures NoRepeat(Without(q, t)) && forall x :: x in Without(q, t) <==> x in q && x != t
  {
    if q != [] {
      WithoutRemoves(q[1..], t);
      assert forall i :: 0 < i < |q| ==> q[i] != q[0];
      assert q[0] !in q[1..] && q == [q[0]] + q[1..];
      var w := Without(q[1..], t);
      assert q[0] != t ==> q[0] !in w && Without(q, t) == [q[0]] + w;
    }
  }

  class TaskStore {
    /** __BBTASKS, the "deps" flags, and the tasks with the "task" flag. */
    var bbtasks: seq<string>
    var deps: Flags
    var flagged: set<string>

    /** No list names a task twice, and the listed tasks are the flagged ones. */
    ghost predicate Valid()
      reads this
    {
      && NoRepeat(bbtasks) && flagged == (set t | t in bbtasks)
      && forall t :: t in deps ==> NoRepeat(deps[t])
    }

    constructor ()
      ensures Valid() && bbtasks == [] && deps == map[]
    {
      bbtasks, deps, flagged := [], map[], {};
    }

    method AppendMissing(q: seq<string>, entries: seq<string>) returns (r: seq<string>)
      requires NoRepeat(q)
      ensures NoRepeat(r) && q <= r && forall x :: x in r <==> x in q || x in entries
    {
      r := q;
      for i := 0 to |entries|
        invariant NoRepeat(r) && q <= r && forall x :: x in r <==> x in q || x in entries[..i]
      {
        assert entries[..i + 1] == entries[..i] + [entries[i]];
        if entries[i] !in r {
          r := r + [entries[i]];
        }
      }
      assert entries[..|entries|] == entries;
    }

    /** `task` becomes a dependency of `entry`, in front of the others. */
    method Precede(task: string, entry: string)
      requires Valid()
      modifies this`deps
      ensures Valid()
      ensures forall t, x :: x in DepsOf(deps, t) <==> x in DepsOf(old(deps), t) || (t == entry && x == task)
    {
      var existing := DepsOf(deps, entry);
      if task !in existing {
        deps := deps[entry := [task] + existing];
        assert forall t :: DepsOf(deps, t) == if t == entry then [task] + existing else DepsOf(old(deps), t);
      }
    }

    /** addtask: the task is listed once; it depends on those of `after` as well, and those of
        `before` on it as well; no other dependency changes. */
    method AddTask(name: string, before: seq<string>, after: seq<string>)
      requires Valid()
      modifies this
      ensures Valid()
      ensures var task := FullName(name);
              && old(bbtasks) <= bbtasks && (forall x :: x in bbtasks <==> x in old(bbtasks) || x == task)
              && forall t, x :: x in DepsOf(deps, t) <==>
                   || x in DepsOf(old(deps), t)
                   || (t == task && x in after)
                   || (t in before && x == task)
    {
      var task := FullName(name);
      flagged := flagged + {task};
      if task !in bbtasks {
        bbtasks := bbtasks + [task];
      }
      var existing := AppendMissing(DepsOf(deps, task), after);
      assert forall x :: x in existing <==> x in DepsOf(old(deps), task) || x in after;
      deps := deps[task := existing];
      assert forall t :: DepsOf(deps, t) == if t == task then existing else DepsOf(old(deps), t);
      PrecedeAll(task, before);
    }

    method PrecedeAll(task: string, before: seq<string>)
      requires Valid()
      modifies this`deps
      ensures Valid()
      ensures forall t, x :: x in DepsOf(deps, t) <==> x in DepsOf(old(deps), t) || (t in before && x == task)
    {
      for i := 0 to |before|
        invariant Valid()
        invariant forall t, x :: x in DepsOf(deps, t) <==> x in DepsOf(old(deps), t) || (t in before[..i] && x == task)
      {
        assert before[..i + 1] == before[..i] + [before[i]];
        Precede(task, before[i]);
      }
      assert before[..|before|] == before;
    }

    /** deltask: the task, its dependencies, and the dependencies of LISTED tasks on it are gone;
        a name that is not a listed task keeps its dependency on the deleted one. */
    method DelTask(name: string)
      requires Valid()
      modifies this
      ensures Valid()
      ensures var task := FullName(name);
              && (forall x :: x in bbtasks <==> x in old(bbtasks) && x != task)
              && task !in deps
              && forall t, x :: t != task ==>
                   (x in DepsOf(deps, t) <==> x in DepsOf(old(deps), t) && !(x == task && t in bbtasks))
    {
      var task := FullName(name);
      WithoutRemoves(bbtasks, task);
      bbtasks := Without(bbtasks, task);
      flagged := flagged - {task};
      deps := deps - {task};
      Forget(task, bbtasks);
    }

    method ForgetOne(task: string, entry: string)
      requires Valid()
      modifies this`deps
      ensures Valid() && deps.Keys == old(deps.Keys)
      ensures forall t, x :: x in DepsOf(deps, t) <==> x in DepsOf(old(deps), t) && !(x == task && t == entry)
    {
      var existing := DepsOf(deps, entry);
      if task in existing {
        WithoutRemoves(existing, task);
        deps := deps[entry := Without(existing, task)];
        assert forall t :: DepsOf(deps, t) == if t == entry then Without(existing, task) else DepsOf(old(deps), t);
      }
    }

    /** No task of `tasks` depends on `task` any more. */
    method Forget(task: string, tasks: seq<string>)
      requires Valid()
      modifies this`deps
      ensures Valid() && deps.Keys == old(deps.Keys)
      ensures forall t, x :: x in DepsOf(deps, t) <==> x in DepsOf(old(deps), t) && !(x == task && t in tasks)
    {
      for i := 0 to |tasks|
        invariant Valid() && deps.Keys == old(deps.Keys)
        invariant forall t, x :: x in DepsOf(deps, t) <==>
                    x in DepsOf(old(deps), t) && !(x == task && t in tasks[..i])
      {
        assert tasks[..i + 1] == tasks[..i] + [tasks[i]];
        ForgetOne(task, tasks[i]);
      }
      assert tasks[..|tasks|] == tasks;
    }
  }
}
