/** The asynchronous mesh as a program: prepare all tasks, then let them interleave. */
module Gather {
  import opened Texts
  import opened DataMesh
  import opened AsyncMesh

  /** `_prepare_tasks` up to its first error. */
  function Prepared(w: World, relationships: seq<Directed>, lookupField: Text, fields: Fields)
    : (Fields, Option<Error>)
  {
    if lookupField !in fields || !Truthy(fields[lookupField]) then (fields, Some(MissingLookupField))
    else if relationships != [] && OriginKey(fields[lookupField]).None? then
      (Cleared(fields, relationships), Some(BadPrimaryKey))
    else PreparedFields(w, relationships, lookupField, fields)
  }

  lemma PartsStep(w: World, lookups: seq<Lookup>, item: nat, i: nat)
    requires i < |lookups|
    ensures lookups[i].0.related.isLocal ==>
      LocalOnly(lookups[..i + 1]) == LocalOnly(lookups[..i]) + [lookups[i]] &&
      RemoteOnly(lookups[..i + 1]) == RemoteOnly(lookups[..i])
    ensures !lookups[i].0.related.isLocal ==>
      LocalOnly(lookups[..i + 1]) == LocalOnly(lookups[..i]) &&
      TasksFor(w, item, RemoteOnly(lookups[..i + 1]))
        == TasksFor(w, item, RemoteOnly(lookups[..i])) + [TaskOf(w, item, lookups[i])]
  {
    assert lookups[..i + 1][..i] == lookups[..i];
    assert LocalOnly(lookups[..i]) + [] == LocalOnly(lookups[..i]);
    assert RemoteOnly(lookups[..i]) + [] == RemoteOnly(lookups[..i]);
  }

  lemma FollowedSnoc(w: World, fields: Fields, lookups: seq<Lookup>, l: Lookup)
    requires Followed(w, fields, lookups).1.None?
    ensures Followed(w, fields, lookups + [l])
         == AfterRecord(Followed(w, fields, lookups).0, l.0.key, RelatedRecord(w, l.0, l.1))
  {
    assert (lookups + [l])[..|lookups|] == lookups;
  }

  lemma {:induction false} LocalPrefix(lookups: seq<Lookup>, n: nat)
    requires n <= |lookups|
    ensures |LocalOnly(lookups[..n])| <= |LocalOnly(lookups)|
    ensures LocalOnly(lookups)[..|LocalOnly(lookups[..n])|] == LocalOnly(lookups[..n])
  {
    if n == |lookups| {
      assert lookups[..n] == lookups;
    } else {
      LocalPrefix(lookups[..|lookups| - 1], n);
      assert lookups[..|lookups| - 1][..n] == lookups[..n];
    }
  }

  /** The loop of `_prepare_tasks` over the lookups. */
  method PrepareLookups(w: World, mesh: Mesh, item: DataItem, n: nat, lookups: seq<Lookup>)
      returns (tasks: seq<Task>, error: Option<Error>)
    requires mesh.Valid(w)
    requires forall i :: 0 <= i < |lookups| && lookups[i].0.related.isLocal ==>
      KnownParams(mesh.relationships, lookups[i].1)
    modifies mesh`cache, item
    ensures mesh.Valid(w)
    ensures (item.fields, error) == Followed(w, old(item.fields), LocalOnly(lookups))
    ensures error.None? ==> tasks == TasksFor(w, n, RemoteOnly(lookups))
  {
    ghost var cleared := item.fields;
    tasks, error := [], None;
    for i := 0 to |lookups|
      invariant mesh.Valid(w) && error == None
      invariant (item.fields, error) == Followed(w, cleared, LocalOnly(lookups[..i]))
      invariant tasks == TasksFor(w, n, RemoteOnly(lookups[..i]))
    {
      var (relationship, params) := lookups[i];
      PartsStep(w, lookups, n, i);
      if relationship.related.isLocal {
        FollowedSnoc(w, cleared, LocalOnly(lookups[..i]), lookups[i]);
        error := mesh.ExtendWithLocal(w, item, relationship, params);
        if error.Some? {
          LocalPrefix(lookups, i + 1);
          FollowedStops(w, cleared, LocalOnly(lookups), |LocalOnly(lookups[..i + 1])|);
          return;
        }
      } else {
        tasks := tasks + [Task(n, relationship.key, AddressOf(w, params))];
      }
    }
    assert lookups[..|lookups|] == lookups;
  }

  /** `_prepare_tasks`, for the item at place `n`. */
  method PrepareTasks(w: World, mesh: Mesh, item: DataItem, n: nat) returns (tasks: seq<Task>, error: Option<Error>)
    requires mesh.Valid(w)
    modifies mesh`cache, item
    ensures mesh.Valid(w)
    ensures (item.fields, error) == Prepared(w, mesh.relationships, mesh.lookupField, old(item.fields))
    ensures error.None? ==> tasks == PreparedTasks(w, mesh.relationships, mesh.lookupField, n, old(item.fields))
  {
    tasks := [];
    if mesh.lookupField !in item.fields || !Truthy(item.fields[mesh.lookupField]) {
      return tasks, Some(MissingLookupField);
    }
    var originPk := item.fields[mesh.lookupField];
    mesh.ClearPlaceholders(item);
    var lookups := mesh.GetRelatedRecordsMeta(w, originPk);
    if lookups.None? {
      return tasks, Some(BadPrimaryKey);
    }
    if mesh.relationships != [] {
      LookupsKnown(w.rows, mesh.relationships, OriginKey(originPk).value);
    }
    tasks, error := PrepareLookups(w, mesh, item, n, lookups.value);
  }

  /** A task that can be asked and is answered. */
  ghost predicate Answerable(w: World, t: Task) {
    t.address.Some? && w.network(t.address.value.1).Some?
  }

  lemma {:induction false} TasksAnswerable(w: World, relationships: seq<Directed>, lookupField: Text,
                                           items: seq<Fields>)
    requires SyncSucceeds(w, relationships, lookupField, items)
    ensures forall n :: 0 <= n < |AllTasks(w, relationships, lookupField, items)| ==>
      Answerable(w, AllTasks(w, relationships, lookupField, items)[n])
  {
    if items != [] {
      var m := |items| - 1;
      TasksAnswerable(w, relationships, lookupField, items[..m]);
      ItemTasksAnswerable(w, relationships, lookupField, items[m], m);
    }
  }

  lemma ItemTasksAnswerable(w: World, relationships: seq<Directed>, lookupField: Text, fields: Fields, item: nat)
    requires Extended(w, relationships, lookupField, fields).1.None?
    ensures forall n :: 0 <= n < |PreparedTasks(w, relationships, lookupField, item, fields)| ==>
      Answerable(w, PreparedTasks(w, relationships, lookupField, item, fields)[n])
  {
    var lookups := ItemLookups(w, relationships, lookupField, fields);
    var remote := RemoteOnly(lookups);
    PartsOfLookups(lookups);
    RemoteAreRemote(lookups);
    if relationships != [] {
      NoneFailed(w, Cleared(fields, relationships), lookups);
    }
    forall n | 0 <= n < |remote| ensures Answerable(w, TaskOf(w, item, remote[n])) {
      assert !RelatedRecord(w, remote[n].0, remote[n].1).Failed?;
    }
  }

  /** `asyncio.gather`: as long as some task is not done, any such task may make its next step. */
  method GatherTasks(w: World, tasks: seq<Task>, start: State)
      returns (end: State, error: Option<Error>, ghost steps: seq<Step>)
    requires |start.progress| == |tasks| && forall n :: 0 <= n < |tasks| ==> tasks[n].item < |start.items|
    ensures StableReplies(w, tasks, steps) && AsyncMesh.Run(w, tasks, start, steps) == Some(end)
    ensures error.None? ==> AllDone(end)
    ensures (forall n :: 0 <= n < |tasks| ==> Answerable(w, tasks[n])) ==> error.None?
  {
    end, error, steps := start, None, [];
    while exists i :: 0 <= i < |end.progress| && end.progress[i] != Done
      invariant |end.progress| == |tasks| && |end.items| == |start.items|
      invariant StableReplies(w, tasks, steps) && AsyncMesh.Run(w, tasks, start, steps) == Some(end)
      decreases Unfinished(end.progress)
    {
      var i :| 0 <= i < |end.progress| && end.progress[i] != Done;
      assert tasks[i].item < |end.items|;
      if tasks[i].address.None? {
        return end, Some(ClientError), steps;
      }
      var step;
      if end.progress[i] == Waiting {
        step := Start(i);
      } else {
        var reply := w.network(tasks[i].address.value.1);
        if reply.None? {
          return end, Some(ClientError), steps;
        }
        step := Finish(i, reply.value);
      }
      StepDecreases(w, tasks, end, step);
      RunSnoc(w, tasks, start, steps, end, step);
      StableSnoc(w, tasks, steps, step);
      end, steps := Next(w, tasks, end, step), steps + [step];
    }
  }

  lemma StableSnoc(w: World, tasks: seq<Task>, steps: seq<Step>, step: Step)
    requires StableReplies(w, tasks, steps) && (step.Finish? ==> IsReply(w, tasks, step))
    ensures StableReplies(w, tasks, steps + [step])
  {
  }

  /** The loop of `async_extend_data`: the tasks of all items, before any of them runs. */
  method PrepareAll(w: World, mesh: Mesh, data: seq<DataItem>)
      returns (tasks: seq<Task>, prepared: seq<Fields>, error: Option<Error>)
    requires mesh.Valid(w)
    requires forall i, j :: 0 <= i < |data| && 0 <= j < |data| && i != j ==> data[i] != data[j]
    modifies mesh`cache, data
    ensures mesh.Valid(w)
    ensures error.None? ==>
      prepared == PreparedItems(w, mesh.relationships, mesh.lookupField, old(FieldsOf(data))) &&
      tasks == AllTasks(w, mesh.relationships, mesh.lookupField, old(FieldsOf(data)))
    ensures error.None? ==> AllPrepared(w, mesh.relationships, mesh.lookupField, old(FieldsOf(data)), |data|)
    ensures SyncSucceeds(w, mesh.relationships, mesh.lookupField, old(FieldsOf(data))) ==> error.None?
  {
    ghost var before := FieldsOf(data);
    prepared, tasks, error := [], [], None;
    PreparedNone(w, mesh.relationships, mesh.lookupField, before);
    for k := 0 to |data|
      invariant mesh.Valid(w) && error == None
      invariant forall i :: k <= i < |data| ==> data[i].fields == before[i]
      invariant PreparedUpTo(w, mesh.relationships, mesh.lookupField, before, k, prepared, tasks)
    {
      var more;
      more, error := PrepareTasks(w, mesh, data[k], k);
      PreparedNext(w, mesh.relationships, mesh.lookupField, before, k, prepared, tasks, data[k].fields, more, error);
      if error.Some? {
        return;
      }
      prepared, tasks := prepared + [data[k].fields], tasks + more;
    }
    assert before[..|data|] == before;
  }

  /** The first items raise no error when their tasks are prepared. */
  ghost predicate AllPrepared(w: World, relationships: seq<Directed>, lookupField: Text, items: seq<Fields>, k: nat) {
    k <= |items| && forall i :: 0 <= i < k ==> Prepared(w, relationships, lookupField, items[i]).1.None?
  }

  /** The first items are prepared, and these are their tasks. */
  ghost predicate PreparedUpTo(w: World, relationships: seq<Directed>, lookupField: Text, items: seq<Fields>,
                               k: nat, prepared: seq<Fields>, tasks: seq<Task>)
  {
    AllPrepared(w, relationships, lookupField, items, k) &&
    prepared == PreparedItems(w, relationships, lookupField, items[..k]) &&
    tasks == AllTasks(w, relationships, lookupField, items[..k])
  }

  lemma PreparedNone(w: World, relationships: seq<Directed>, lookupField: Text, items: seq<Fields>)
    ensures PreparedUpTo(w, relationships, lookupField, items, 0, [], [])
  {
    assert items[..0] == [];
  }

  lemma PreparedNext(w: World, relationships: seq<Directed>, lookupField: Text, items: seq<Fields>, k: nat,
                     prepared: seq<Fields>, tasks: seq<Task>, fields: Fields, more: seq<Task>, error: Option<Error>)
    requires k < |items| && PreparedUpTo(w, relationships, lookupField, items, k, prepared, tasks)
    requires (fields, error) == Prepared(w, relationships, lookupField, items[k])
    requires error.None? ==> more == PreparedTasks(w, relationships, lookupField, k, items[k])
    ensures error.None? ==>
      PreparedUpTo(w, relationships, lookupField, items, k + 1, prepared + [fields], tasks + more)
    ensures SyncSucceeds(w, relationships, lookupField, items) ==> error.None?
  {
    PreparedStep(w, relationships, lookupField, items, k);
  }

  // ---------- when it succeeds ----------

  /** What is true of the tasks in every state of a run: those that wait for an answer have an address,
      those that are done have been answered. */
  ghost predicate ProgressTells(w: World, tasks: seq<Task>, s: State) {
    |s.progress| == |tasks| && (forall a :: a in s.cached ==> w.network(a.1).Some?) &&
    forall i :: 0 <= i < |tasks| ==> s.progress[i] == Done ==> Answerable(w, tasks[i])
  }

  lemma {:induction false} RunTells(w: World, tasks: seq<Task>, s: State, steps: seq<Step>)
    requires ProgressTells(w, tasks, s) && StableReplies(w, tasks, steps)
    requires AsyncMesh.Run(w, tasks, s, steps).Some?
    ensures ProgressTells(w, tasks, AsyncMesh.Run(w, tasks, s, steps).value)
  {
    if steps != [] {
      var n := |steps| - 1;
      assert forall m :: 0 <= m < n ==> steps[..n][m] == steps[m];
      RunTells(w, tasks, s, steps[..n]);
      assert steps[n].Finish? ==> IsReply(w, tasks, steps[n]);
    }
  }

  lemma {:induction false} PartsCover(lookups: seq<Lookup>, n: nat)
    requires n < |lookups|
    ensures lookups[n] in if lookups[n].0.related.isLocal then LocalOnly(lookups) else RemoteOnly(lookups)
  {
    if n < |lookups| - 1 {
      PartsCover(lookups[..|lookups| - 1], n);
    }
  }

  ghost predicate AllAnswerable(w: World, tasks: seq<Task>) {
    forall t :: t in tasks ==> Answerable(w, t)
  }

  lemma AnswerableParts(w: World, a: seq<Task>, b: seq<Task>)
    requires AllAnswerable(w, a + b)
    ensures AllAnswerable(w, a) && AllAnswerable(w, b)
  {
    assert forall n :: 0 <= n < |a| ==> a[n] == (a + b)[n];
    assert forall n :: 0 <= n < |b| ==> b[n] == (a + b)[|a| + n];
  }

  /** A lookup that does not fail: a local one that was followed, or a remote one whose task can be
      answered. */
  lemma PartsSucceed(w: World, fields: Fields, lookups: seq<Lookup>, item: nat, n: nat)
    requires n < |lookups| && Followed(w, fields, LocalOnly(lookups)).1.None?
    requires AllAnswerable(w, TasksFor(w, item, RemoteOnly(lookups)))
    ensures !RelatedRecord(w, lookups[n].0, lookups[n].1).Failed?
  {
    PartsCover(lookups, n);
    if lookups[n].0.related.isLocal {
      NoneFailed(w, fields, LocalOnly(lookups));
      var k :| 0 <= k < |LocalOnly(lookups)| && LocalOnly(lookups)[k] == lookups[n];
    } else {
      var k :| 0 <= k < |RemoteOnly(lookups)| && RemoteOnly(lookups)[k] == lookups[n];
      assert Answerable(w, TasksFor(w, item, RemoteOnly(lookups))[k]);
    }
  }

  /** An item whose tasks were prepared without an error and can all be answered is extended by the
      synchronous mesh, too. */
  lemma AnswerableItem(w: World, relationships: seq<Directed>, lookupField: Text, fields: Fields, item: nat)
    requires Prepared(w, relationships, lookupField, fields).1.None?
    requires AllAnswerable(w, PreparedTasks(w, relationships, lookupField, item, fields))
    ensures Extended(w, relationships, lookupField, fields).1.None?
  {
    var cleared := Cleared(fields, relationships);
    if relationships != [] {
      var lookups := ItemLookups(w, relationships, lookupField, fields);
      forall n | 0 <= n < |lookups| ensures !RelatedRecord(w, lookups[n].0, lookups[n].1).Failed? {
        PartsSucceed(w, cleared, lookups, item, n);
      }
      FollowsIfNoneFailed(w, cleared, lookups);
    }
  }

  lemma {:induction false} TasksOfItem(w: World, relationships: seq<Directed>, lookupField: Text,
                                       items: seq<Fields>, i: nat)
    requires i < |items| && AllAnswerable(w, AllTasks(w, relationships, lookupField, items))
    ensures AllAnswerable(w, PreparedTasks(w, relationships, lookupField, i, items[i]))
  {
    var m := |items| - 1;
    AnswerableParts(w, AllTasks(w, relationships, lookupField, items[..m]),
                    PreparedTasks(w, relationships, lookupField, m, items[m]));
    if i < m {
      assert items[..m][i] == items[i];
      TasksOfItem(w, relationships, lookupField, items[..m], i);
    } else {
      assert i == m;
    }
  }

  lemma AnswerableItems(w: World, relationships: seq<Directed>, lookupField: Text, items: seq<Fields>)
    requires AllPrepared(w, relationships, lookupField, items, |items|)
    requires AllAnswerable(w, AllTasks(w, relationships, lookupField, items))
    ensures SyncSucceeds(w, relationships, lookupField, items)
  {
    forall i | 0 <= i < |items| ensures Extended(w, relationships, lookupField, items[i]).1.None? {
      TasksOfItem(w, relationships, lookupField, items, i);
      AnswerableItem(w, relationships, lookupField, items[i], i);
    }
  }

  /** `async_extend_data`: whatever the interleaving, it succeeds on exactly the responses that the
      synchronous mesh extends without an error, and extends them to the same items, up to the order
      inside the nested lists. */
  method AsyncExtendData(w: World, mesh: Mesh, data: seq<DataItem>) returns (error: Option<Error>)
    requires mesh.Valid(w)
    requires forall i, j :: 0 <= i < |data| && 0 <= j < |data| && i != j ==> data[i] != data[j]
    modifies mesh`cache, data
    ensures mesh.Valid(w)
    ensures error.None? <==> SyncSucceeds(w, mesh.relationships, mesh.lookupField, old(FieldsOf(data)))
    ensures error.None? ==>
      forall i :: 0 <= i < |data| ==>
        SameUpToOrder(mesh.relationships, data[i].fields,
                      Extended(w, mesh.relationships, mesh.lookupField, old(FieldsOf(data))[i]).0)
  {
    ghost var before := FieldsOf(data);
    var tasks, prepared;
    tasks, prepared, error := PrepareAll(w, mesh, data);
    if error.Some? {
      return;
    }
    var start := State(prepared, seq(|tasks|, i => Waiting), map[], []);
    var end, failed, steps := GatherTasks(w, tasks, start);
    error := failed;
    GatheredItems(w, mesh.relationships, mesh.lookupField, before, steps, end, error);
    if |end.items| == |data| {
      WriteBack(data, end.items);
    }
  }

  /** The lists the tasks appended to belong to the items. */
  method WriteBack(data: seq<DataItem>, items: seq<Fields>)
    requires |items| == |data|
    requires forall i, j :: 0 <= i < |data| && 0 <= j < |data| && i != j ==> data[i] != data[j]
    modifies data
    ensures forall i :: 0 <= i < |data| ==> data[i].fields == items[i]
  {
    for k := 0 to |data|
      invariant forall i :: 0 <= i < k ==> data[i].fields == items[i]
    {
      data[k].fields := items[k];
    }
  }

  lemma PreparedStep(w: World, relationships: seq<Directed>, lookupField: Text, items: seq<Fields>, k: nat)
    requires k < |items|
    ensures AllTasks(w, relationships, lookupField, items[..k + 1])
         == AllTasks(w, relationships, lookupField, items[..k]) +
            PreparedTasks(w, relationships, lookupField, k, items[k])
    ensures Prepared(w, relationships, lookupField, items[k]).1.None? ==>
      PreparedItems(w, relationships, lookupField, items[..k + 1])
        == PreparedItems(w, relationships, lookupField, items[..k]) +
           [Prepared(w, relationships, lookupField, items[k]).0]
    ensures SyncSucceeds(w, relationships, lookupField, items) ==>
      Prepared(w, relationships, lookupField, items[k]).1.None?
  {
    TasksSnoc(w, relationships, lookupField, items, k);
    if Prepared(w, relationships, lookupField, items[k]).1.None? {
      PreparedItemsSnoc(w, relationships, lookupField, items, k);
      PreparedIsFields(w, relationships, lookupField, items[k]);
    }
    if SyncSucceeds(w, relationships, lookupField, items) {
      PreparedItem(w, relationships, lookupField, items[k]);
    }
  }

  lemma PreparedIsFields(w: World, relationships: seq<Directed>, lookupField: Text, fields: Fields)
    requires Prepared(w, relationships, lookupField, fields).1.None?
    ensures Prepared(w, relationships, lookupField, fields) == PreparedFields(w, relationships, lookupField, fields)
  {
  }

  lemma PreparedItemsSnoc(w: World, relationships: seq<Directed>, lookupField: Text, items: seq<Fields>, k: nat)
    requires k < |items|
    ensures PreparedItems(w, relationships, lookupField, items[..k + 1])
         == PreparedItems(w, relationships, lookupField, items[..k]) +
            [PreparedFields(w, relationships, lookupField, items[k]).0]
  {
    var after := PreparedItems(w, relationships, lookupField, items[..k + 1]);
    SnocByElements(after, PreparedItems(w, relationships, lookupField, items[..k]), after[k]);
  }

  lemma SnocByElements<T>(a: seq<T>, b: seq<T>, x: T)
    requires |a| == |b| + 1 && a[|b|] == x && forall i :: 0 <= i < |b| ==> a[i] == b[i]
    ensures a == b + [x]
  {
  }

  lemma TasksSnoc(w: World, relationships: seq<Directed>, lookupField: Text, items: seq<Fields>, k: nat)
    requires k < |items|
    ensures AllTasks(w, relationships, lookupField, items[..k + 1])
         == AllTasks(w, relationships, lookupField, items[..k]) +
            PreparedTasks(w, relationships, lookupField, k, items[k])
  {
    assert items[..k + 1][..k] == items[..k];
  }

  lemma GatheredItems(w: World, relationships: seq<Directed>, lookupField: Text, items: seq<Fields>, steps: seq<Step>,
                      end: State, error: Option<Error>)
    requires var tasks := AllTasks(w, relationships, lookupField, items);
      StableReplies(w, tasks, steps) &&
      AsyncMesh.Run(w, tasks, Initial(w, relationships, lookupField, items), steps) == Some(end) &&
      (error.None? ==> AllDone(end)) &&
      ((forall n :: 0 <= n < |tasks| ==> Answerable(w, tasks[n])) ==> error.None?)
    requires AllPrepared(w, relationships, lookupField, items, |items|)
    ensures error.None? <==> SyncSucceeds(w, relationships, lookupField, items)
    ensures error.None? ==>
      |end.items| == |items| &&
      forall i :: 0 <= i < |items| ==>
        SameUpToOrder(relationships, end.items[i], Extended(w, relationships, lookupField, items[i]).0)
  {
    if error.None? {
      RunTells(w, AllTasks(w, relationships, lookupField, items), Initial(w, relationships, lookupField, items), steps);
      AnswerableItems(w, relationships, lookupField, items);
    }
    if SyncSucceeds(w, relationships, lookupField, items) {
      TasksAnswerable(w, relationships, lookupField, items);
      AsyncRefinesSync(w, relationships, lookupField, items, steps);
    }
  }
}
