/** The generic nine-task checklist kept in session state, independent of any job:
    its progress figures, its reset, and its split into completed and pending tasks. */
module SessionChecklist {
  import opened Sequences

  /** One task of the checklist and whether it is ticked. */
  datatype Task = Task(name: string, done: bool)

  /** The progress line: ticked tasks, all tasks, and the whole percentage. */
  datatype Progress = Progress(completed: nat, total: nat, percent: nat)

  /** The tasks of a new session's checklist, in display order. */
  const DefaultTaskNames: seq<string> := [
    "Analyze Job Role / Profile", "Research the Company", "Customize Your Resume",
    "Customize Cover Letter", "Update LinkedIn", "Submit the Application",
    "Prepare for Follow-Up", "Interview Preparation", "Thank You E-mail"
  ]

  /** The task names, in checklist order. */
  function Names(items: seq<Task>): (names: seq<string>)
    ensures |names| == |items|
    ensures forall i :: 0 <= i < |items| ==> names[i] == items[i].name
  {
    seq(|items|, i requires 0 <= i < |items| => items[i].name)
  }

  /** No task name occurs twice, as for the keys of a dictionary. */
  ghost predicate DistinctNames(items: seq<Task>)
  {
    forall i, j :: 0 <= i < j < |items| ==> items[i].name != items[j].name
  }

  /** The given tasks, none of them ticked: the initial checklist and the one a reset leaves. */
  function AllPending(names: seq<string>): (items: seq<Task>)
    ensures Names(items) == names
    ensures forall i :: 0 <= i < |items| ==> !items[i].done
  {
    seq(|names|, i requires 0 <= i < |names| => Task(names[i], false))
  }

  /** The number of ticked tasks. */
  function CountDone(items: seq<Task>): (n: nat)
    ensures n <= |items|
    ensures n == 0 <==> forall i :: 0 <= i < |items| ==> !items[i].done
    ensures n == |items| <==> forall i :: 0 <= i < |items| ==> items[i].done
  {
    if items == [] then 0
    else
      var rest := items[1..];
      assert forall i :: 1 <= i < |items| ==> items[i] == rest[i - 1];
      (if items[0].done then 1 else 0) + CountDone(rest)
  }

  /** The progress bar's whole percentage of `done` out of `total`, rounded down. */
  function Percent(done: nat, total: nat): (p: nat)
    requires 0 < total && done <= total
    ensures p <= 100
    ensures p * total <= 100 * done < (p + 1) * total
    ensures p == 0 <==> 100 * done < total
    ensures p == 100 <==> done == total
  {
    var p := (100 * done) / total;
    assert p * total <= 100 * done < (p + 1) * total;
    assert p <= 100 by {
      if 100 < p { MulMonotone(101, p, total); }
    }
    assert done == total ==> p == 100 by {
      if done == total && p < 100 { MulMonotone(p + 1, 100, total); }
    }
    assert 100 * done < total ==> p == 0 by {
      if 0 < p { MulMonotone(1, p, total); }
    }
    p
  }

  /** Multiplying by a natural number keeps the order of two naturals. */
  lemma MulMonotone(a: nat, b: nat, t: nat)
    requires a <= b
    ensures a * t <= b * t
  {
  }

  /** Completed count, task count and percentage of a non-empty checklist. */
  function ProgressOf(items: seq<Task>): (p: Progress)
    requires |items| > 0
    ensures p.completed == CountDone(items) && p.total == |items|
    ensures p.percent == Percent(p.completed, p.total)
    ensures p.percent <= 100
    ensures p.percent == 100 <==> p.completed == p.total
    ensures p.percent == 0 <==> 100 * p.completed < p.total
  {
    var done := CountDone(items);
    Progress(done, |items|, Percent(done, |items|))
  }

  /** The names of the tasks whose tick is `state`, in checklist order. */
  function NamesWhere(items: seq<Task>, state: bool): (names: seq<string>)
    ensures forall n :: n in names <==> exists i :: 0 <= i < |items| && items[i].name == n && items[i].done == state
  {
    if items == [] then []
    else
      var rest := NamesWhere(items[1..], state);
      assert forall i :: 1 <= i < |items| ==> items[i] == items[1..][i - 1];
      assert forall n :: n in rest ==> exists i :: 0 <= i < |items| && items[i].name == n && items[i].done == state by {
        forall n | n in rest ensures exists i :: 0 <= i < |items| && items[i].name == n && items[i].done == state {
          var k :| 0 <= k < |items[1..]| && items[1..][k].name == n && items[1..][k].done == state;
          assert items[k + 1] == items[1..][k];
        }
      }
      if items[0].done == state then [items[0].name] + rest else rest
  }

  /** Appending one task appends its name to the side its tick selects. */
  lemma {:induction false} NamesWhereSnoc(items: seq<Task>, t: Task, state: bool)
    ensures NamesWhere(items + [t], state) ==
            NamesWhere(items, state) + (if t.done == state then [t.name] else [])
  {
    if items != [] {
      assert (items + [t])[1..] == items[1..] + [t];
      NamesWhereSnoc(items[1..], t, state);
    }
  }

  /** The completed list and the pending list each keep the checklist's order. */
  lemma {:induction false} NamesWhereKeepsOrder(items: seq<Task>, state: bool)
    ensures IsSubsequence(NamesWhere(items, state), Names(items))
  {
    if items != [] {
      NamesWhereKeepsOrder(items[1..], state);
      assert Names(items)[1..] == Names(items[1..]);
      var r := NamesWhere(items, state);
      if items[0].done == state {
        assert r[1..] == NamesWhere(items[1..], state);
      } else {
        SkipHead(r, Names(items));
      }
    }
  }

  /** The completed and pending lists share no name when the task names are distinct,
      together name every task, and their lengths add up to the task count,
      the completed one having exactly as many entries as the progress count. */
  lemma {:induction false} CompletedPendingPartition(items: seq<Task>)
    ensures forall n :: n in Names(items) <==> n in NamesWhere(items, true) || n in NamesWhere(items, false)
    ensures |NamesWhere(items, true)| + |NamesWhere(items, false)| == |items|
    ensures |NamesWhere(items, true)| == CountDone(items)
    ensures DistinctNames(items) ==> forall n :: !(n in NamesWhere(items, true) && n in NamesWhere(items, false))
  {
    if items != [] {
      CompletedPendingPartition(items[1..]);
      assert forall i :: 1 <= i < |items| ==> items[i] == items[1..][i - 1];
      forall n ensures n in Names(items) <==> n in NamesWhere(items, true) || n in NamesWhere(items, false) {
        if n in Names(items) {
          var k :| 0 <= k < |items| && Names(items)[k] == n;
          assert items[k].name == n;
        }
      }
    }
    if DistinctNames(items) {
      forall n | n in NamesWhere(items, true) ensures n !in NamesWhere(items, false) {
        var i :| 0 <= i < |items| && items[i].name == n && items[i].done;
        assert forall j :: 0 <= j < |items| && items[j].name == n ==> j == i;
      }
    }
  }

  /** After a reset the progress line reads 0 of the same number of tasks, 0 percent. */
  lemma ResetProgress(items: seq<Task>)
    requires |items| > 0
    ensures ProgressOf(AllPending(Names(items))) == Progress(0, |items|, 0)
    ensures NamesWhere(AllPending(Names(items)), true) == []
  {
    var cleared := AllPending(Names(items));
    CompletedPendingPartition(cleared);
  }

  /** The default checklist, before any tick, reads 0 out of 9 tasks, 0 percent. */
  lemma DefaultProgress()
    ensures ProgressOf(AllPending(DefaultTaskNames)) == Progress(0, 9, 0)
  {
  }

  /** The percentages the progress bar can show for nine tasks, by completed count. */
  lemma NineTaskPercents()
    ensures forall c :: 0 <= c <= 9 ==>
              Percent(c, 9) == [0, 11, 22, 33, 44, 55, 66, 77, 88, 100][c]
  {
  }

  /** The checklist held in session state. */
  class Checklist {
    /** The tasks in display order with their ticks. */
    var items: seq<Task>

    /** The task names are the nine default ones, in their order. */
    ghost predicate Valid()
      reads this
    {
      Names(items) == DefaultTaskNames
    }

    /** The checklist the session holds always has nine tasks with distinct names,
        so its completed and pending lists never share a name. */
    lemma ValidShape()
      requires Valid()
      ensures |items| == 9 && DistinctNames(items)
      ensures forall n :: !(n in NamesWhere(items, true) && n in NamesWhere(items, false))
    {
      assert forall i :: 0 <= i < |items| ==> items[i].name == DefaultTaskNames[i];
      CompletedPendingPartition(items);
    }

    /** A session without a stored checklist starts from the nine tasks, none ticked. */
    constructor ()
      ensures Valid()
      ensures items == AllPending(DefaultTaskNames)
    {
      items := AllPending(DefaultTaskNames);
    }

    /** Store, task by task in order, the tick that each checkbox now shows. */
    method Apply(ticks: seq<bool>)
      requires Valid()
      requires |ticks| == |items|
      modifies this
      ensures Valid()
      ensures forall i :: 0 <= i < |items| ==> items[i] == Task(old(items)[i].name, ticks[i])
    {
      var completed: seq<Task> := [];
      var k := 0;
      while k < |items|
        invariant 0 <= k <= |items|
        invariant |completed| == k
        invariant forall i :: 0 <= i < k ==> completed[i] == Task(items[i].name, ticks[i])
      {
        completed := completed + [Task(items[k].name, ticks[k])];
        k := k + 1;
      }
      items := completed;
    }

    /** Untick every task, keeping the names and their order. */
    method Reset()
      requires Valid()
      modifies this
      ensures Valid()
      ensures items == AllPending(Names(old(items)))
    {
      items := AllPending(Names(items));
    }

    /** The names of the tasks whose tick is `state`, gathered in checklist order:
        `true` gives the sidebar's completed list, `false` its pending list. */
    method TasksWhere(state: bool) returns (names: seq<string>)
      ensures names == NamesWhere(items, state)
    {
      names := [];
      var k := 0;
      while k < |items|
        invariant 0 <= k <= |items|
        invariant names == NamesWhere(items[..k], state)
      {
        assert items[..k + 1] == items[..k] + [items[k]];
        NamesWhereSnoc(items[..k], items[k], state);
        if items[k].done == state {
          names := names + [items[k].name];
        }
        k := k + 1;
      }
      assert items[..k] == items;
    }
  }
}
