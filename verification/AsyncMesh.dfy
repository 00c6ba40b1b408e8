/** The asynchronous data mesh: a pool of tasks that interleave freely, and why it gives the same
    items as the synchronous one. */
module AsyncMesh {
  import opened Texts
  import opened Json
  import opened Models
  import opened Clients
  import opened DataMesh
  import opened Joins

  // ---------- preparing the tasks ----------

  type Lookup = (Relationship, Params)

  /** A service and a URL of it. Each service has one client, hence one cache. */
  type Address = (Text, Text)

  /** One coroutine: the list it appends to, by item and key, and the address its client prepares
      from the lookup's parameters, `None` where that raises. */
  datatype Task = Task(item: nat, key: Text, address: Option<Address>)

  function AddressOf(w: World, p: Params): Option<Address> {
    if p.service !in w.specs then None
    else
      match PreparedUrl(w.specs[p.service], w.verb, Some(p.pk), p.model)
      case None => None
      case Some(url) => Some((p.service, url))
  }

  function TaskOf(w: World, item: nat, l: Lookup): Task {
    Task(item, l.0.key, AddressOf(w, l.1))
  }

  /** A task writes to the list of its relationship, in its item, and asks its service, if that is
      there and declares the operation. */
  lemma TaskExactly(w: World, item: nat, l: Lookup)
    ensures var t := TaskOf(w, item, l); t.item == item && t.key == l.0.key
    ensures forall a ::
      TaskOf(w, item, l).address == Some(a) <==>
      a.0 == l.1.service && a.0 in w.specs && PreparedUrl(w.specs[a.0], w.verb, Some(l.1.pk), l.1.model) == Some(a.1)
  {
  }

  function LocalOnly(lookups: seq<Lookup>): seq<Lookup> {
    if lookups == [] then []
    else
      var l := lookups[|lookups| - 1];
      LocalOnly(lookups[..|lookups| - 1]) + if l.0.related.isLocal then [l] else []
  }

  function RemoteOnly(lookups: seq<Lookup>): seq<Lookup> {
    if lookups == [] then []
    else
      var l := lookups[|lookups| - 1];
      RemoteOnly(lookups[..|lookups| - 1]) + if l.0.related.isLocal then [] else [l]
  }

  function TasksFor(w: World, item: nat, lookups: seq<Lookup>): (r: seq<Task>)
    ensures |r| == |lookups|
    ensures forall i :: 0 <= i < |r| ==> r[i] == TaskOf(w, item, lookups[i])
  {
    seq(|lookups|, i requires 0 <= i < |lookups| => TaskOf(w, item, lookups[i]))
  }

  /** The lookups of an item; none when the item has no usable key. */
  function ItemLookups(w: World, relationships: seq<Directed>, lookupField: Text, fields: Fields): seq<Lookup> {
    if lookupField in fields && OriginKey(fields[lookupField]).Some? && relationships != []
    then Lookups(w.rows, relationships, OriginKey(fields[lookupField]).value)
    else []
  }

  /** `_prepare_tasks`: local records are appended at once, each remote lookup becomes a task. */
  function PreparedFields(w: World, relationships: seq<Directed>, lookupField: Text, fields: Fields)
    : (Fields, Option<Error>)
  {
    Followed(w, Cleared(fields, relationships), LocalOnly(ItemLookups(w, relationships, lookupField, fields)))
  }

  function PreparedTasks(w: World, relationships: seq<Directed>, lookupField: Text, item: nat, fields: Fields)
    : seq<Task>
  {
    TasksFor(w, item, RemoteOnly(ItemLookups(w, relationships, lookupField, fields)))
  }

  function PreparedItems(w: World, relationships: seq<Directed>, lookupField: Text, items: seq<Fields>)
    : (r: seq<Fields>)
    ensures |r| == |items|
    ensures forall i :: 0 <= i < |r| ==> r[i] == PreparedFields(w, relationships, lookupField, items[i]).0
  {
    seq(|items|, i requires 0 <= i < |items| => PreparedFields(w, relationships, lookupField, items[i]).0)
  }

  /** The tasks of all items. */
  function AllTasks(w: World, relationships: seq<Directed>, lookupField: Text, items: seq<Fields>): (r: seq<Task>)
    ensures forall i :: 0 <= i < |r| ==> r[i].item < |items|
  {
    if items == [] then []
    else
      var n := |items| - 1;
      AllTasks(w, relationships, lookupField, items[..n]) + PreparedTasks(w, relationships, lookupField, n, items[n])
  }

  // ---------- the pool of tasks as a state machine ----------

  datatype Progress = Waiting | InFlight | Done

  datatype State = State(
    items: seq<Fields>,
    progress: seq<Progress>,
    cached: map<Address, Json>,
    given: seq<(Address, Json)>)

  /** A task starts: its client looks in the cache, and calls the service if there is nothing.
      Or an answer arrives. Between the two any other step may happen. */
  datatype Step = Start(task: nat) | Finish(task: nat, reply: Json)

  predicate Enabled(w: World, tasks: seq<Task>, s: State, step: Step) {
    step.task < |tasks| && |s.progress| == |tasks| && tasks[step.task].item < |s.items| &&
    tasks[step.task].address.Some? &&
    match step
    case Start(i) => s.progress[i] == Waiting
    case Finish(i, _) => s.progress[i] == InFlight
  }

  /** `placeholder.append(dict(content))` if the content is a dict; the task is done. */
  function Completed(tasks: seq<Task>, s: State, i: nat, body: Json): State
    requires i < |tasks| && |s.progress| == |tasks| && tasks[i].item < |s.items|
  {
    var t := tasks[i];
    var items := if body.Obj? then s.items[t.item := Appended(s.items[t.item], t.key, body)] else s.items;
    s.(items := items, progress := s.progress[i := Done])
  }

  function Next(w: World, tasks: seq<Task>, s: State, step: Step): State
    requires Enabled(w, tasks, s, step)
  {
    var address := tasks[step.task].address.value;
    match step
    case Start(i) =>
      if w.verb == GET && address in s.cached then Completed(tasks, s, i, s.cached[address])
      else s.(progress := s.progress[i := InFlight])
    case Finish(i, reply) =>
      var answered := s.(given := s.given + [(address, reply)]);
      var stored := if w.verb == GET then answered.(cached := s.cached[address := reply]) else answered;
      Completed(tasks, stored, i, reply)
  }

  function Initial(w: World, relationships: seq<Directed>, lookupField: Text, items: seq<Fields>): State {
    State(PreparedItems(w, relationships, lookupField, items),
          seq(|AllTasks(w, relationships, lookupField, items)|, i => Waiting), map[], [])
  }

  /** The state after a sequence of steps, `None` if one of them is not enabled. */
  function Run(w: World, tasks: seq<Task>, s: State, steps: seq<Step>): Option<State> {
    if steps == [] then Some(s)
    else
      match Run(w, tasks, s, steps[..|steps| - 1])
      case None => None
      case Some(t) =>
        var step := steps[|steps| - 1];
        if Enabled(w, tasks, t, step) then Some(Next(w, tasks, t, step)) else None
  }

  // ---------- termination ----------

  /** Work left: two for a task that waits, one for a task in flight. */
  function Unfinished(progress: seq<Progress>): nat {
    if progress == [] then 0
    else
      Unfinished(progress[..|progress| - 1]) +
      match progress[|progress| - 1] case Waiting => 2 case InFlight => 1 case Done => 0
  }

  lemma {:induction false} UnfinishedUpdate(progress: seq<Progress>, i: nat, p: Progress)
    requires i < |progress|
    requires (progress[i] == Waiting && p != Waiting) || (progress[i] == InFlight && p == Done)
    ensures Unfinished(progress[i := p]) < Unfinished(progress)
  {
    var n := |progress| - 1;
    if i < n {
      UnfinishedUpdate(progress[..n], i, p);
      assert progress[i := p][..n] == progress[..n][i := p];
    } else {
      assert progress[i := p][..n] == progress[..n];
    }
  }

  /** Every step takes work away, so every interleaving ends. */
  lemma StepDecreases(w: World, tasks: seq<Task>, s: State, step: Step)
    requires Enabled(w, tasks, s, step)
    ensures Unfinished(Next(w, tasks, s, step).progress) < Unfinished(s.progress)
  {
    UnfinishedUpdate(s.progress, step.task, Done);
    if s.progress[step.task] == Waiting {
      UnfinishedUpdate(s.progress, step.task, InFlight);
    }
  }

  // ---------- the caches, whatever the services answer ----------

  /** No interleaving stores a wrong answer: each cached entry was given by its service for its URL. */
  lemma {:induction false} CachedWasGiven(w: World, tasks: seq<Task>, s: State, steps: seq<Step>)
    requires Run(w, tasks, s, steps).Some?
    requires forall a :: a in s.cached ==> (a, s.cached[a]) in s.given
    ensures var t := Run(w, tasks, s, steps).value;
      forall a :: a in t.cached ==> (a, t.cached[a]) in t.given
  {
    if steps != [] {
      CachedWasGiven(w, tasks, s, steps[..|steps| - 1]);
      var t := Run(w, tasks, s, steps[..|steps| - 1]).value;
      var u := Next(w, tasks, t, steps[|steps| - 1]);
      forall a | a in u.cached ensures (a, u.cached[a]) in u.given {
        if u.given != t.given {
          assert u.given[|t.given|] == u.given[|u.given| - 1];
          assert forall x :: x in t.given ==> x in u.given;
        }
      }
    }
  }

  /** Every address that has been asked is in the cache. */
  ghost predicate GivenAreCached(s: State) {
    forall n :: 0 <= n < |s.given| ==> s.given[n].0 in s.cached
  }

  lemma {:induction false} RunCaches(w: World, tasks: seq<Task>, s: State, steps: seq<Step>)
    requires w.verb == GET && GivenAreCached(s) && Run(w, tasks, s, steps).Some?
    ensures GivenAreCached(Run(w, tasks, s, steps).value)
    ensures s.cached.Keys <= Run(w, tasks, s, steps).value.cached.Keys
  {
    if steps != [] {
      RunCaches(w, tasks, s, steps[..|steps| - 1]);
    }
  }

  /** A cached answer spares the call: under GET, a task that starts after some answer for its address
      has arrived never has a call on its way. */
  lemma {:induction false} LateTaskNeverCalls(w: World, tasks: seq<Task>, s: State, steps: seq<Step>, i: nat, n: nat)
    requires w.verb == GET && GivenAreCached(s) && Run(w, tasks, s, steps).Some?
    requires i < |tasks| == |s.progress| && s.progress[i] == Waiting
    requires n < |s.given| && tasks[i].address == Some(s.given[n].0)
    ensures var t := Run(w, tasks, s, steps).value; |t.progress| == |tasks| && t.progress[i] != InFlight
  {
    if steps != [] {
      LateTaskNeverCalls(w, tasks, s, steps[..|steps| - 1], i, n);
      RunCaches(w, tasks, s, steps[..|steps| - 1]);
      assert s.given[n].0 in s.cached;
    }
  }

  /** Under any other method nothing is ever cached. */
  lemma {:induction false} OtherMethodsUncached(w: World, tasks: seq<Task>, s: State, steps: seq<Step>)
    requires w.verb != GET && Run(w, tasks, s, steps).Some?
    ensures Run(w, tasks, s, steps).value.cached == s.cached
  {
    if steps != [] {
      OtherMethodsUncached(w, tasks, s, steps[..|steps| - 1]);
    }
  }

  /** Unlike the synchronous client, an asynchronous one may call twice for one URL, although it
      caches: two tasks that start before either answer arrives do. */
  lemma CallMayBeRepeated(w: World, tasks: seq<Task>, s: State, i: nat, j: nat, reply: Json)
    requires i < j < |tasks| == |s.progress| && tasks[i].item < |s.items| && tasks[j].item < |s.items|
    requires tasks[i].address.Some? && tasks[i].address == tasks[j].address
    requires s.progress[i] == s.progress[j] == Waiting && tasks[i].address.value !in s.cached
    ensures var end := Run(w, tasks, s, [Start(i), Start(j), Finish(i, reply), Finish(j, reply)]);
      var call := (tasks[i].address.value, reply);
      end.Some? && end.value.given == s.given + [call, call]
  {
    var s1 := s.(progress := s.progress[i := InFlight]);
    var s2 := s1.(progress := s1.progress[j := InFlight]);
    assert Next(w, tasks, s, Start(i)) == s1 && Next(w, tasks, s1, Start(j)) == s2;
    FinishInFlight(w, tasks, s2, i, reply);
    var s3 := Next(w, tasks, s2, Finish(i, reply));
    FinishInFlight(w, tasks, s3, j, reply);
    var s4 := Next(w, tasks, s3, Finish(j, reply));
    RunOfFour(w, tasks, s, s1, s2, s3, s4, Start(i), Start(j), Finish(i, reply), Finish(j, reply));
    var call := (tasks[i].address.value, reply);
    assert s.given + [call] + [call] == s.given + [call, call];
  }

  /** No two tasks ask for the same thing. */
  ghost predicate DistinctAddresses(tasks: seq<Task>) {
    forall i, j :: 0 <= i < j < |tasks| && tasks[i].address.Some? ==> tasks[i].address != tasks[j].address
  }

  /** No task has started, and nothing is cached. */
  ghost predicate Unstarted(tasks: seq<Task>, s: State) {
    |s.progress| == |tasks| && s.cached == map[] && s.given == [] &&
    forall i :: 0 <= i < |tasks| ==> s.progress[i] == Waiting && tasks[i].item < |s.items|
  }

  /** Each address has been called once at most, the calls on their way counted. */
  ghost predicate CalledOnce(tasks: seq<Task>, s: State) {
    |s.progress| == |tasks| &&
    (forall m, n :: 0 <= m < n < |s.given| ==> s.given[m].0 != s.given[n].0) &&
    (forall i, n :: 0 <= i < |tasks| && s.progress[i] == InFlight && 0 <= n < |s.given| ==>
      tasks[i].address != Some(s.given[n].0)) &&
    forall i, j :: 0 <= i < j < |tasks| && s.progress[i] == s.progress[j] == InFlight ==>
      tasks[i].address != tasks[j].address
  }

  /** Every answer was given to a task that is done now, and only what can be asked is on its way. */
  ghost predicate CallsOfTasks(tasks: seq<Task>, s: State) {
    |s.progress| == |tasks| &&
    (forall n :: 0 <= n < |s.given| ==> Answered(tasks, s.progress, s.given[n].0)) &&
    forall i :: 0 <= i < |tasks| && s.progress[i] == InFlight ==> tasks[i].address.Some?
  }

  ghost predicate Answered(tasks: seq<Task>, progress: seq<Progress>, a: Address)
    requires |tasks| == |progress|
  {
    exists i :: 0 <= i < |tasks| && progress[i] == Done && tasks[i].address == Some(a)
  }

  /** What one step does to the task it belongs to, and to the answers given. */
  lemma StepOfTask(w: World, tasks: seq<Task>, s: State, step: Step)
    requires Enabled(w, tasks, s, step)
    ensures var u, i := Next(w, tasks, s, step), step.task;
      s.progress[i] != Done && |u.progress| == |s.progress| &&
      (forall k :: 0 <= k < |tasks| && k != i ==> u.progress[k] == s.progress[k]) &&
      (u.given == s.given ||
       (u.progress[i] == Done && |u.given| == |s.given| + 1 && u.given[..|s.given|] == s.given &&
        tasks[i].address == Some(u.given[|s.given|].0)))
  {
  }

  lemma StepCalls(w: World, tasks: seq<Task>, s: State, step: Step)
    requires CallsOfTasks(tasks, s) && Enabled(w, tasks, s, step)
    ensures CallsOfTasks(tasks, Next(w, tasks, s, step))
  {
    var u := Next(w, tasks, s, step);
    StepOfTask(w, tasks, s, step);
    forall n | 0 <= n < |u.given| ensures Answered(tasks, u.progress, u.given[n].0) {
      if n < |s.given| {
        assert s.given[n] == u.given[n];
        var i :| 0 <= i < |tasks| && s.progress[i] == Done && tasks[i].address == Some(s.given[n].0);
        assert u.progress[i] == Done;
      }
    }
  }

  lemma StepCallsOnce(w: World, tasks: seq<Task>, s: State, step: Step)
    requires DistinctAddresses(tasks) && CallsOfTasks(tasks, s) && CalledOnce(tasks, s) && Enabled(w, tasks, s, step)
    ensures CalledOnce(tasks, Next(w, tasks, s, step))
  {
    var u := Next(w, tasks, s, step);
    StepOfTask(w, tasks, s, step);
    DistinctCalls(tasks, s);
    StepCalls(w, tasks, s, step);
    DistinctCalls(tasks, u);
    forall m, n | 0 <= m < n < |u.given| ensures u.given[m].0 != u.given[n].0 {
      assert s.given[m] == u.given[m];
      if n < |s.given| {
        assert s.given[n] == u.given[n];
      }
    }
  }

  lemma DistinctCalls(tasks: seq<Task>, s: State)
    requires DistinctAddresses(tasks) && CallsOfTasks(tasks, s)
    ensures forall i, n :: 0 <= i < |tasks| && s.progress[i] != Done && 0 <= n < |s.given| ==>
      tasks[i].address != Some(s.given[n].0)
    ensures forall i, j :: 0 <= i < j < |tasks| && s.progress[i] == s.progress[j] == InFlight ==>
      tasks[i].address != tasks[j].address
  {
    forall i, n | 0 <= i < |tasks| && s.progress[i] != Done && 0 <= n < |s.given|
      ensures tasks[i].address != Some(s.given[n].0)
    {
      assert Answered(tasks, s.progress, s.given[n].0);
    }
  }

  lemma {:induction false} RunCallsOnce(w: World, tasks: seq<Task>, s: State, steps: seq<Step>)
    requires DistinctAddresses(tasks) && Unstarted(tasks, s) && Run(w, tasks, s, steps).Some?
    ensures CallsOfTasks(tasks, Run(w, tasks, s, steps).value) && CalledOnce(tasks, Run(w, tasks, s, steps).value)
  {
    if steps != [] {
      var n := |steps| - 1;
      RunCallsOnce(w, tasks, s, steps[..n]);
      StepCalls(w, tasks, Run(w, tasks, s, steps[..n]).value, steps[n]);
      StepCallsOnce(w, tasks, Run(w, tasks, s, steps[..n]).value, steps[n]);
    }
  }

  /** Every interleaving calls each address once at most exactly when no two tasks share one,
      whatever is cached on the way. */
  lemma CalledOnceExactly(w: World, tasks: seq<Task>, s: State)
    requires Unstarted(tasks, s)
    ensures DistinctAddresses(tasks) <==>
      forall steps :: Run(w, tasks, s, steps).Some? ==> CalledOnce(tasks, Run(w, tasks, s, steps).value)
  {
    if DistinctAddresses(tasks) {
      forall steps | Run(w, tasks, s, steps).Some? ensures CalledOnce(tasks, Run(w, tasks, s, steps).value) {
        RunCallsOnce(w, tasks, s, steps);
      }
    } else {
      var i, j :| 0 <= i < j < |tasks| && tasks[i].address.Some? && tasks[i].address == tasks[j].address;
      CallMayBeRepeated(w, tasks, s, i, j, Null);
      var end := Run(w, tasks, s, [Start(i), Start(j), Finish(i, Null), Finish(j, Null)]).value;
      assert end.given[0] == end.given[1];
    }
  }

  lemma FinishInFlight(w: World, tasks: seq<Task>, s: State, i: nat, reply: Json)
    requires i < |tasks| && |s.progress| == |tasks| && tasks[i].item < |s.items|
    requires tasks[i].address.Some? && s.progress[i] == InFlight
    ensures Enabled(w, tasks, s, Finish(i, reply))
    ensures var t := Next(w, tasks, s, Finish(i, reply));
      t.given == s.given + [(tasks[i].address.value, reply)] &&
      t.progress == s.progress[i := Done] && |t.items| == |s.items|
  {
  }

  lemma RunOfFour(w: World, tasks: seq<Task>, s0: State, s1: State, s2: State, s3: State, s4: State,
                  a: Step, b: Step, c: Step, d: Step)
    requires Enabled(w, tasks, s0, a) && Next(w, tasks, s0, a) == s1
    requires Enabled(w, tasks, s1, b) && Next(w, tasks, s1, b) == s2
    requires Enabled(w, tasks, s2, c) && Next(w, tasks, s2, c) == s3
    requires Enabled(w, tasks, s3, d) && Next(w, tasks, s3, d) == s4
    ensures Run(w, tasks, s0, [a, b, c, d]) == Some(s4)
  {
    assert [a, b, c, d] == [a, b, c] + [d] && [a, b, c] == [a, b] + [c] && [a, b] == [a] + [b] && [a] == [] + [a];
    RunSnoc(w, tasks, s0, [], s0, a);
    RunSnoc(w, tasks, s0, [a], s1, b);
    RunSnoc(w, tasks, s0, [a, b], s2, c);
    RunSnoc(w, tasks, s0, [a, b, c], s3, d);
  }

  lemma RunSnoc(w: World, tasks: seq<Task>, s: State, steps: seq<Step>, t: State, step: Step)
    requires Run(w, tasks, s, steps) == Some(t) && Enabled(w, tasks, t, step)
    ensures Run(w, tasks, s, steps + [step]) == Some(Next(w, tasks, t, step))
  {
    assert (steps + [step])[..|steps|] == steps;
  }

  // ---------- the items, with stable services ----------

  ghost predicate StableReplies(w: World, tasks: seq<Task>, steps: seq<Step>) {
    forall n :: 0 <= n < |steps| && steps[n].Finish? ==> IsReply(w, tasks, steps[n])
  }

  ghost predicate IsReply(w: World, tasks: seq<Task>, step: Step)
    requires step.Finish?
  {
    step.task < |tasks| && tasks[step.task].address.Some? &&
    w.network(tasks[step.task].address.value.1) == Some(step.reply)
  }

  /** The record behind an address, asked for without a cache. */
  function TaskRecord(w: World, t: Task): seq<Json> {
    match t.address
    case None => []
    case Some(a) =>
      match w.network(a.1)
      case None => []
      case Some(body) => if body.Obj? then [body] else []
  }

  lemma TaskOfLookup(w: World, item: nat, l: Lookup)
    requires !l.0.related.isLocal
    ensures TaskRecord(w, TaskOf(w, item, l)) == FoundRecord(RelatedRecord(w, l.0, l.1))
  {
  }

  /** The records of the finished tasks that write to one list. */
  ghost function DoneBag(w: World, tasks: seq<Task>, progress: seq<Progress>, item: nat, key: Text): multiset<Json>
    requires |tasks| == |progress|
  {
    if tasks == [] then multiset{}
    else
      var n := |tasks| - 1;
      DoneBag(w, tasks[..n], progress[..n], item, key) +
      if progress[n] == Done && tasks[n].item == item && tasks[n].key == key then multiset(TaskRecord(w, tasks[n]))
      else multiset{}
  }

  lemma {:induction false} DoneBagUpdate(w: World, tasks: seq<Task>, progress: seq<Progress>, i: nat, p: Progress,
                                         item: nat, key: Text)
    requires |tasks| == |progress| && i < |tasks| && progress[i] != Done
    ensures DoneBag(w, tasks, progress[i := p], item, key) == DoneBag(w, tasks, progress, item, key) +
      if p == Done && tasks[i].item == item && tasks[i].key == key then multiset(TaskRecord(w, tasks[i]))
      else multiset{}
  {
    var n := |tasks| - 1;
    if i < n {
      DoneBagUpdate(w, tasks[..n], progress[..n], i, p, item, key);
      assert progress[i := p][..n] == progress[..n][i := p];
    } else {
      assert progress[i := p][..n] == progress[..n];
    }
  }

  lemma {:induction false} NothingDone(w: World, tasks: seq<Task>, progress: seq<Progress>, item: nat, key: Text)
    requires |tasks| == |progress| && forall i :: 0 <= i < |progress| ==> progress[i] != Done
    ensures DoneBag(w, tasks, progress, item, key) == multiset{}
  {
    if tasks != [] {
      NothingDone(w, tasks[..|tasks| - 1], progress[..|tasks| - 1], item, key);
    }
  }

  /** A list of the item now: what it held at the start and the records of the finished tasks. */
  ghost predicate ListGrown(start: Json, now: Json, bag: multiset<Json>) {
    (if start.Arr? then now.Arr? && multiset(now.elems) == multiset(start.elems) + bag else bag == multiset{}) &&
    (bag == multiset{} ==> now == start)
  }

  ghost predicate ItemGrown(w: World, tasks: seq<Task>, s: State, i: nat, start: Fields)
    requires |tasks| == |s.progress| && i < |s.items|
  {
    s.items[i].Keys == start.Keys &&
    forall k :: k in start ==> ListGrown(start[k], s.items[i][k], DoneBag(w, tasks, s.progress, i, k))
  }

  ghost predicate Invariant(w: World, tasks: seq<Task>, start: seq<Fields>, s: State) {
    |s.progress| == |tasks| && |s.items| == |start| &&
    (forall a :: a in s.cached ==> w.network(a.1) == Some(s.cached[a])) &&
    forall i :: 0 <= i < |start| ==> ItemGrown(w, tasks, s, i, start[i])
  }

  /** Every task has a list to append to. */
  ghost predicate HasLists(tasks: seq<Task>, start: seq<Fields>) {
    forall n :: 0 <= n < |tasks| ==> HasList(tasks[n], start)
  }

  ghost predicate HasList(t: Task, start: seq<Fields>) {
    t.item < |start| && t.key in start[t.item] && start[t.item][t.key].Arr?
  }

  lemma CompletedKeeps(w: World, tasks: seq<Task>, start: seq<Fields>, s: State, n: nat, body: Json, i: nat)
    requires HasLists(tasks, start) && |s.progress| == |tasks| && |s.items| == |start|
    requires n < |tasks| && s.progress[n] != Done && i < |start| && ItemGrown(w, tasks, s, i, start[i])
    requires TaskRecord(w, tasks[n]) == if body.Obj? then [body] else []
    ensures ItemGrown(w, tasks, Completed(tasks, s, n, body), i, start[i])
  {
    CompletedKeys(tasks, start, s, n, body, i);
    forall k | k in start[i]
      ensures ListGrown(start[i][k], Completed(tasks, s, n, body).items[i][k],
                        DoneBag(w, tasks, Completed(tasks, s, n, body).progress, i, k))
    {
      var bag := DoneBag(w, tasks, s.progress, i, k);
      assert ListGrown(start[i][k], s.items[i][k], bag);
      DoneBagUpdate(w, tasks, s.progress, n, Done, i, k);
      CompletedField(tasks, start, s, n, body, i, k);
      if body.Obj? && tasks[n].item == i && tasks[n].key == k {
        ListGrows(start[i][k], s.items[i][k], bag, body);
      }
    }
  }

  lemma CompletedKeys(tasks: seq<Task>, start: seq<Fields>, s: State, n: nat, body: Json, i: nat)
    requires HasLists(tasks, start) && |s.progress| == |tasks| && |s.items| == |start|
    requires n < |tasks| && i < |start| && s.items[i].Keys == start[i].Keys
    ensures Completed(tasks, s, n, body).items[i].Keys == start[i].Keys
  {
    assert HasList(tasks[n], start);
  }

  lemma CompletedField(tasks: seq<Task>, start: seq<Fields>, s: State, n: nat, body: Json, i: nat, k: Text)
    requires HasLists(tasks, start) && |s.progress| == |tasks| && |s.items| == |start|
    requires n < |tasks| && i < |start| && s.items[i].Keys == start[i].Keys && k in start[i]
    requires start[i][k].Arr? ==> s.items[i][k].Arr?
    ensures k in Completed(tasks, s, n, body).items[i]
    ensures Completed(tasks, s, n, body).items[i][k] ==
      if body.Obj? && tasks[n].item == i && tasks[n].key == k then Arr(s.items[i][k].elems + [body]) else s.items[i][k]
    ensures tasks[n].item == i && tasks[n].key == k ==> start[i][k].Arr?
  {
    assert HasList(tasks[n], start);
  }

  lemma ListGrows(start: Json, now: Json, bag: multiset<Json>, body: Json)
    requires start.Arr? && ListGrown(start, now, bag)
    ensures ListGrown(start, Arr(now.elems + [body]), bag + multiset([body]))
  {
    assert body in bag + multiset([body]);
  }

  lemma StartKeeps(w: World, tasks: seq<Task>, start: seq<Fields>, s: State, n: nat, i: nat)
    requires |s.progress| == |tasks| && |s.items| == |start|
    requires n < |tasks| && s.progress[n] != Done && i < |start| && ItemGrown(w, tasks, s, i, start[i])
    ensures ItemGrown(w, tasks, s.(progress := s.progress[n := InFlight]), i, start[i])
  {
    forall k | k in start[i]
      ensures DoneBag(w, tasks, s.progress[n := InFlight], i, k) == DoneBag(w, tasks, s.progress, i, k)
    {
      DoneBagUpdate(w, tasks, s.progress, n, InFlight, i, k);
    }
  }

  /** What every step keeps. */
  lemma StepKeepsInvariant(w: World, tasks: seq<Task>, start: seq<Fields>, s: State, step: Step)
    requires HasLists(tasks, start) && Invariant(w, tasks, start, s) && Enabled(w, tasks, s, step)
    requires step.Finish? ==> IsReply(w, tasks, step)
    ensures Invariant(w, tasks, start, Next(w, tasks, s, step))
  {
    StepKeepsCache(w, tasks, s, step);
    forall i | 0 <= i < |start| ensures ItemGrown(w, tasks, Next(w, tasks, s, step), i, start[i]) {
      assert ItemGrown(w, tasks, s, i, start[i]);
      StepKeepsItem(w, tasks, start, s, step, i);
    }
  }

  lemma StepKeepsCache(w: World, tasks: seq<Task>, s: State, step: Step)
    requires Enabled(w, tasks, s, step)
    requires forall a :: a in s.cached ==> w.network(a.1) == Some(s.cached[a])
    requires step.Finish? ==> IsReply(w, tasks, step)
    ensures var u := Next(w, tasks, s, step);
      |u.progress| == |s.progress| && |u.items| == |s.items| &&
      forall a :: a in u.cached ==> w.network(a.1) == Some(u.cached[a])
  {
  }

  lemma StepKeepsItem(w: World, tasks: seq<Task>, start: seq<Fields>, s: State, step: Step, i: nat)
    requires HasLists(tasks, start) && Enabled(w, tasks, s, step)
    requires |s.items| == |start| && i < |start| && ItemGrown(w, tasks, s, i, start[i])
    requires forall a :: a in s.cached ==> w.network(a.1) == Some(s.cached[a])
    requires step.Finish? ==> IsReply(w, tasks, step)
    ensures ItemGrown(w, tasks, Next(w, tasks, s, step), i, start[i])
  {
    var t := tasks[step.task];
    var address := t.address.value;
    match step
    case Start(n) =>
      if w.verb == GET && address in s.cached {
        CompletedKeeps(w, tasks, start, s, n, s.cached[address], i);
      } else {
        StartKeeps(w, tasks, start, s, n, i);
      }
    case Finish(n, reply) =>
      var answered := s.(given := s.given + [(address, reply)]);
      var stored := if w.verb == GET then answered.(cached := s.cached[address := reply]) else answered;
      SameItems(w, tasks, s, stored, i, start[i]);
      CompletedKeeps(w, tasks, start, stored, n, reply, i);
  }

  lemma SameItems(w: World, tasks: seq<Task>, s: State, t: State, i: nat, start: Fields)
    requires |tasks| == |s.progress| && i < |s.items| && s.items == t.items && s.progress == t.progress
    requires ItemGrown(w, tasks, s, i, start)
    ensures ItemGrown(w, tasks, t, i, start)
  {
  }

  lemma {:induction false} RunKeepsInvariant(w: World, tasks: seq<Task>, start: seq<Fields>, s: State, steps: seq<Step>)
    requires HasLists(tasks, start) && Invariant(w, tasks, start, s)
    requires StableReplies(w, tasks, steps) && Run(w, tasks, s, steps).Some?
    ensures Invariant(w, tasks, start, Run(w, tasks, s, steps).value)
  {
    if steps != [] {
      var n := |steps| - 1;
      assert forall m :: 0 <= m < n ==> steps[..n][m] == steps[m];
      RunKeepsInvariant(w, tasks, start, s, steps[..n]);
      StepKeepsInvariant(w, tasks, start, Run(w, tasks, s, steps[..n]).value, steps[n]);
    }
  }

  // ---------- the tasks and the lookups ----------

  ghost function Bag(w: World, tasks: seq<Task>, item: nat, key: Text): multiset<Json> {
    DoneBag(w, tasks, seq(|tasks|, i => Done), item, key)
  }

  lemma AllDoneIsBag(w: World, tasks: seq<Task>, progress: seq<Progress>, item: nat, key: Text)
    requires |tasks| == |progress| && forall i :: 0 <= i < |progress| ==> progress[i] == Done
    ensures DoneBag(w, tasks, progress, item, key) == Bag(w, tasks, item, key)
  {
    assert progress == seq(|tasks|, i => Done);
  }

  lemma BagSnoc(w: World, tasks: seq<Task>, t: Task, item: nat, key: Text)
    ensures Bag(w, tasks + [t], item, key) == Bag(w, tasks, item, key) +
      if t.item == item && t.key == key then multiset(TaskRecord(w, t)) else multiset{}
  {
    assert (tasks + [t])[..|tasks|] == tasks;
    assert seq(|tasks| + 1, i => Done)[..|tasks|] == seq(|tasks|, i => Done);
  }

  lemma {:induction false} BagConcat(w: World, a: seq<Task>, b: seq<Task>, item: nat, key: Text)
    ensures Bag(w, a + b, item, key) == Bag(w, a, item, key) + Bag(w, b, item, key)
  {
    if b == [] {
      assert a + b == a;
    } else {
      var c, t := b[..|b| - 1], b[|b| - 1];
      assert b == c + [t];
      assert a + b == (a + c) + [t];
      BagConcat(w, a, c, item, key);
      BagSnoc(w, a + c, t, item, key);
      BagSnoc(w, c, t, item, key);
    }
  }

  ghost predicate AllRemote(lookups: seq<Lookup>) {
    forall i :: 0 <= i < |lookups| ==> !lookups[i].0.related.isLocal
  }

  lemma {:induction false} RemoteAreRemote(lookups: seq<Lookup>)
    ensures AllRemote(RemoteOnly(lookups))
  {
    if lookups != [] {
      RemoteAreRemote(lookups[..|lookups| - 1]);
    }
  }

  lemma TasksForSnoc(w: World, item: nat, lookups: seq<Lookup>)
    requires lookups != []
    ensures TasksFor(w, item, lookups) ==
      TasksFor(w, item, lookups[..|lookups| - 1]) + [TaskOf(w, item, lookups[|lookups| - 1])]
  {
  }

  /** The tasks of one item collect what its remote lookups would, for this item only. */
  lemma {:induction false} BagOfLookups(w: World, lookups: seq<Lookup>, n: nat, item: nat, key: Text)
    requires AllRemote(lookups)
    ensures Bag(w, TasksFor(w, n, lookups), item, key)
         == if n == item then multiset(Collected(w, lookups, key)) else multiset{}
  {
    if lookups != [] {
      var m := |lookups| - 1;
      BagOfLookups(w, lookups[..m], n, item, key);
      TasksForSnoc(w, n, lookups);
      TaskOfLookup(w, n, lookups[m]);
      BagSnoc(w, TasksFor(w, n, lookups[..m]), TaskOf(w, n, lookups[m]), item, key);
    }
  }

  lemma {:induction false} BagOfAllTasks(w: World, relationships: seq<Directed>, lookupField: Text,
                                         items: seq<Fields>, item: nat, key: Text)
    ensures Bag(w, AllTasks(w, relationships, lookupField, items), item, key) ==
      if item < |items|
      then multiset(Collected(w, RemoteOnly(ItemLookups(w, relationships, lookupField, items[item])), key))
      else multiset{}
  {
    if items != [] {
      var n := |items| - 1;
      BagOfAllTasks(w, relationships, lookupField, items[..n], item, key);
      var lookups := RemoteOnly(ItemLookups(w, relationships, lookupField, items[n]));
      RemoteAreRemote(ItemLookups(w, relationships, lookupField, items[n]));
      BagOfLookups(w, lookups, n, item, key);
      BagConcat(w, AllTasks(w, relationships, lookupField, items[..n]), TasksFor(w, n, lookups), item, key);
    }
  }

  ghost predicate IsSplit(all: seq<Json>, local: seq<Json>, remote: seq<Json>) {
    multiset(all) == multiset(local) + multiset(remote)
  }

  lemma SplitSums(all: seq<Json>, local: seq<Json>, remote: seq<Json>, x: seq<Json>)
    requires IsSplit(all, local, remote)
    ensures IsSplit(all + x, local + x, remote)
    ensures IsSplit(all + x, local, remote + x)
  {
  }

  /** Local and remote lookups together collect what all lookups do. */
  lemma {:induction false} CollectedSplit(w: World, lookups: seq<Lookup>, key: Text)
    ensures IsSplit(Collected(w, lookups, key), Collected(w, LocalOnly(lookups), key),
                    Collected(w, RemoteOnly(lookups), key))
  {
    if lookups != [] {
      var before, l := lookups[..|lookups| - 1], lookups[|lookups| - 1];
      CollectedSplit(w, before, key);
      PartsOfLast(lookups);
      var x := if l.0.key == key then FoundRecord(RelatedRecord(w, l.0, l.1)) else [];
      CollectedSnoc(w, before, l, key, x);
      CollectedSnoc(w, LocalOnly(before), l, key, x);
      CollectedSnoc(w, RemoteOnly(before), l, key, x);
      SplitSums(Collected(w, before, key), Collected(w, LocalOnly(before), key),
                Collected(w, RemoteOnly(before), key), x);
    }
  }

  /** The last lookup is in one of the two parts. */
  lemma PartsOfLast(lookups: seq<Lookup>)
    requires lookups != []
    ensures var before, l := lookups[..|lookups| - 1], lookups[|lookups| - 1];
      lookups == before + [l] &&
      LocalOnly(lookups) == (if l.0.related.isLocal then LocalOnly(before) + [l] else LocalOnly(before)) &&
      RemoteOnly(lookups) == (if l.0.related.isLocal then RemoteOnly(before) else RemoteOnly(before) + [l])
  {
  }

  lemma CollectedSnoc(w: World, lookups: seq<Lookup>, l: Lookup, key: Text, x: seq<Json>)
    requires x == if l.0.key == key then FoundRecord(RelatedRecord(w, l.0, l.1)) else []
    ensures Collected(w, lookups + [l], key) == Collected(w, lookups, key) + x
  {
    assert (lookups + [l])[..|lookups|] == lookups;
  }

  lemma {:induction false} PartsOfLookups(lookups: seq<Lookup>)
    ensures forall i :: 0 <= i < |LocalOnly(lookups)| ==> LocalOnly(lookups)[i] in lookups
    ensures forall i :: 0 <= i < |RemoteOnly(lookups)| ==> RemoteOnly(lookups)[i] in lookups
  {
    if lookups != [] {
      PartsOfLookups(lookups[..|lookups| - 1]);
      assert lookups == lookups[..|lookups| - 1] + [lookups[|lookups| - 1]];
    }
  }

  // ---------- one item ----------

  /** A prepared item whose synchronous run succeeds: its local lookups succeed too, its lists
      hold the local records, and its tasks can all be asked. */
  lemma PreparedItem(w: World, relationships: seq<Directed>, lookupField: Text, fields: Fields)
    requires Extended(w, relationships, lookupField, fields).1.None?
    ensures var lookups := ItemLookups(w, relationships, lookupField, fields);
      var prepared := PreparedFields(w, relationships, lookupField, fields);
      prepared.1.None? && prepared.0.Keys == fields.Keys + KeysOf(relationships) &&
      (forall k :: k in prepared.0 && k in KeysOf(relationships) ==>
        prepared.0[k] == Arr(Collected(w, LocalOnly(lookups), k))) &&
      (forall k :: k in prepared.0 && k !in KeysOf(relationships) ==> prepared.0[k] == fields[k])
  {
    LocalLookupsSucceed(w, relationships, lookupField, fields);
    NestedFields(w, relationships, fields, LocalOnly(ItemLookups(w, relationships, lookupField, fields)));
  }

  /** An item after successful lookups on its cleared lists. */
  lemma NestedFields(w: World, relationships: seq<Directed>, fields: Fields, lookups: seq<Lookup>)
    requires Followed(w, Cleared(fields, relationships), lookups).1.None?
    requires HasPlaceholders(Cleared(fields, relationships), lookups)
    requires forall i :: 0 <= i < |lookups| ==> lookups[i].0.key in KeysOf(relationships)
    ensures var after := Followed(w, Cleared(fields, relationships), lookups).0;
      after.Keys == fields.Keys + KeysOf(relationships) &&
      (forall k :: k in after && k in KeysOf(relationships) ==> after[k] == Arr(Collected(w, lookups, k))) &&
      (forall k :: k in after && k !in KeysOf(relationships) ==> after[k] == fields[k])
  {
    var cleared := Cleared(fields, relationships);
    ClearedFields(fields, relationships);
    FollowedCollects(w, cleared, lookups);
    AppendedOnlyUnderKeys(w, cleared, lookups, KeysOf(relationships));
    forall k ensures [] + Collected(w, lookups, k) == Collected(w, lookups, k) {
    }
  }

  lemma LocalLookupsSucceed(w: World, relationships: seq<Directed>, lookupField: Text, fields: Fields)
    requires Extended(w, relationships, lookupField, fields).1.None?
    ensures var local := LocalOnly(ItemLookups(w, relationships, lookupField, fields));
      Followed(w, Cleared(fields, relationships), local).1.None? &&
      HasPlaceholders(Cleared(fields, relationships), local) &&
      forall i :: 0 <= i < |local| ==> local[i].0.key in KeysOf(relationships)
  {
    var lookups := ItemLookups(w, relationships, lookupField, fields);
    var cleared := Cleared(fields, relationships);
    var local := LocalOnly(lookups);
    ClearedFields(fields, relationships);
    PartsOfLookups(lookups);
    if relationships != [] {
      NoneFailed(w, cleared, lookups);
    }
    forall i | 0 <= i < |local|
      ensures !RelatedRecord(w, local[i].0, local[i].1).Failed? && local[i].0.key in KeysOf(relationships)
    {
      LookupInRelationships(w, relationships, lookupField, fields, local[i]);
    }
    FollowsIfNoneFailed(w, cleared, local);
  }

  lemma LookupInRelationships(w: World, relationships: seq<Directed>, lookupField: Text, fields: Fields, l: Lookup)
    requires l in ItemLookups(w, relationships, lookupField, fields)
    ensures l.0.key in KeysOf(relationships)
  {
    var lookups := ItemLookups(w, relationships, lookupField, fields);
    var i :| 0 <= i < |lookups| && lookups[i] == l;
    LookupIsKnown(w.rows, relationships, OriginKey(fields[lookupField]).value, i);
  }

  lemma {:induction false} AppendedOnlyUnderKeys(w: World, fields: Fields, lookups: seq<Lookup>, keys: set<Text>)
    requires forall i :: 0 <= i < |lookups| ==> lookups[i].0.key in keys
    ensures forall k :: k !in keys ==> Collected(w, lookups, k) == []
    ensures forall k :: k in fields && k !in keys ==>
      k in Followed(w, fields, lookups).0 && Followed(w, fields, lookups).0[k] == fields[k]
  {
    if lookups != [] {
      assert forall i :: 0 <= i < |lookups| - 1 ==> lookups[..|lookups| - 1][i] == lookups[i];
      AppendedOnlyUnderKeys(w, fields, lookups[..|lookups| - 1], keys);
    }
  }

  /** The item after its synchronous run. */
  lemma SyncItem(w: World, relationships: seq<Directed>, lookupField: Text, fields: Fields)
    requires Extended(w, relationships, lookupField, fields).1.None?
    ensures var lookups := ItemLookups(w, relationships, lookupField, fields);
      var sync := Extended(w, relationships, lookupField, fields).0;
      sync.Keys == fields.Keys + KeysOf(relationships) &&
      (forall k :: k in sync && k in KeysOf(relationships) ==> sync[k] == Arr(Collected(w, lookups, k))) &&
      (forall k :: k in sync && k !in KeysOf(relationships) ==> sync[k] == fields[k])
  {
    var lookups := ItemLookups(w, relationships, lookupField, fields);
    if relationships == [] {
      ClearedFields(fields, relationships);
    } else {
      LookupKeys(w.rows, relationships, OriginKey(fields[lookupField]).value, fields);
      forall i | 0 <= i < |lookups| ensures lookups[i].0.key in KeysOf(relationships) {
        LookupInRelationships(w, relationships, lookupField, fields, lookups[i]);
      }
      NestedFields(w, relationships, fields, lookups);
    }
  }

  // ---------- refinement ----------

  ghost predicate SyncSucceeds(w: World, relationships: seq<Directed>, lookupField: Text, items: seq<Fields>) {
    forall i :: 0 <= i < |items| ==> Extended(w, relationships, lookupField, items[i]).1.None?
  }

  /** The same item up to the order inside the nested lists. */
  ghost predicate SameUpToOrder(relationships: seq<Directed>, a: Fields, b: Fields) {
    a.Keys == b.Keys &&
    forall k :: k in a ==>
      if k in KeysOf(relationships) then a[k].Arr? && b[k].Arr? && multiset(a[k].elems) == multiset(b[k].elems)
      else a[k] == b[k]
  }

  lemma {:induction false} TasksHaveLists(w: World, relationships: seq<Directed>, lookupField: Text, items: seq<Fields>)
    requires SyncSucceeds(w, relationships, lookupField, items)
    ensures HasLists(AllTasks(w, relationships, lookupField, items),
                     PreparedItems(w, relationships, lookupField, items))
  {
    if items != [] {
      var n := |items| - 1;
      SyncOfFirst(w, relationships, lookupField, items, n);
      TasksHaveLists(w, relationships, lookupField, items[..n]);
      LastTasksHaveLists(w, relationships, lookupField, items);
    }
  }

  lemma SyncOfFirst(w: World, relationships: seq<Directed>, lookupField: Text, items: seq<Fields>, n: nat)
    requires n < |items| && SyncSucceeds(w, relationships, lookupField, items)
    ensures SyncSucceeds(w, relationships, lookupField, items[..n])
    ensures Extended(w, relationships, lookupField, items[n]).1.None?
  {
  }

  lemma LastTasksHaveLists(w: World, relationships: seq<Directed>, lookupField: Text, items: seq<Fields>)
    requires items != [] && Extended(w, relationships, lookupField, items[|items| - 1]).1.None?
    requires HasLists(AllTasks(w, relationships, lookupField, items[..|items| - 1]),
                      PreparedItems(w, relationships, lookupField, items[..|items| - 1]))
    ensures HasLists(AllTasks(w, relationships, lookupField, items),
                     PreparedItems(w, relationships, lookupField, items))
  {
    var n := |items| - 1;
    var before := AllTasks(w, relationships, lookupField, items[..n]);
    var prepared := PreparedItems(w, relationships, lookupField, items);
    ListsOfMore(before, PreparedItems(w, relationships, lookupField, items[..n]), prepared);
    ItemTasksHaveLists(w, relationships, lookupField, items, n);
    ListsOfBoth(before, PreparedTasks(w, relationships, lookupField, n, items[n]), prepared);
  }

  lemma ListsOfMore(tasks: seq<Task>, start: seq<Fields>, more: seq<Fields>)
    requires HasLists(tasks, start) && |start| <= |more| && forall i :: 0 <= i < |start| ==> start[i] == more[i]
    ensures HasLists(tasks, more)
  {
    forall n | 0 <= n < |tasks| ensures HasList(tasks[n], more) {
      assert HasList(tasks[n], start);
    }
  }

  lemma ListsOfBoth(a: seq<Task>, b: seq<Task>, start: seq<Fields>)
    requires HasLists(a, start) && HasLists(b, start)
    ensures HasLists(a + b, start)
  {
    forall n | 0 <= n < |a + b| ensures HasList((a + b)[n], start) {
      assert (a + b)[n] == if n < |a| then a[n] else b[n - |a|];
      assert n < |a| ==> HasList(a[n], start);
      assert n >= |a| ==> HasList(b[n - |a|], start);
    }
  }

  lemma ItemTasksHaveLists(w: World, relationships: seq<Directed>, lookupField: Text, items: seq<Fields>, n: nat)
    requires n < |items| && Extended(w, relationships, lookupField, items[n]).1.None?
    ensures HasLists(PreparedTasks(w, relationships, lookupField, n, items[n]),
                     PreparedItems(w, relationships, lookupField, items))
  {
    var lookups := RemoteOnly(ItemLookups(w, relationships, lookupField, items[n]));
    PreparedItem(w, relationships, lookupField, items[n]);
    PartsOfLookups(ItemLookups(w, relationships, lookupField, items[n]));
    forall m | 0 <= m < |lookups| ensures lookups[m].0.key in KeysOf(relationships) {
      LookupInRelationships(w, relationships, lookupField, items[n], lookups[m]);
    }
  }

  lemma InitialInvariant(w: World, relationships: seq<Directed>, lookupField: Text, items: seq<Fields>)
    requires SyncSucceeds(w, relationships, lookupField, items)
    ensures Invariant(w, AllTasks(w, relationships, lookupField, items),
                      PreparedItems(w, relationships, lookupField, items),
                      Initial(w, relationships, lookupField, items))
  {
    var tasks := AllTasks(w, relationships, lookupField, items);
    var s := Initial(w, relationships, lookupField, items);
    forall i | 0 <= i < |items| ensures ItemGrown(w, tasks, s, i, s.items[i]) {
      NothingGrown(w, tasks, s, i);
    }
  }

  lemma NothingGrown(w: World, tasks: seq<Task>, s: State, i: nat)
    requires |tasks| == |s.progress| && i < |s.items|
    requires forall n :: 0 <= n < |s.progress| ==> s.progress[n] != Done
    ensures ItemGrown(w, tasks, s, i, s.items[i])
  {
    forall k | k in s.items[i] ensures ListGrown(s.items[i][k], s.items[i][k], DoneBag(w, tasks, s.progress, i, k)) {
      NothingDone(w, tasks, s.progress, i, k);
    }
  }

  ghost predicate AllDone(s: State) {
    forall i :: 0 <= i < |s.progress| ==> s.progress[i] == Done
  }

  /** Async refines sync: in every interleaving of the tasks that runs to the end, with stable
      services and a synchronous run without errors, each item holds under each key the same
      records as after the synchronous run, nothing of another item, and its other fields. */
  lemma AsyncRefinesSync(w: World, relationships: seq<Directed>, lookupField: Text, items: seq<Fields>,
                         steps: seq<Step>)
    requires SyncSucceeds(w, relationships, lookupField, items)
    requires var tasks := AllTasks(w, relationships, lookupField, items);
      StableReplies(w, tasks, steps) &&
      Run(w, tasks, Initial(w, relationships, lookupField, items), steps).Some? &&
      AllDone(Run(w, tasks, Initial(w, relationships, lookupField, items), steps).value)
    ensures var tasks := AllTasks(w, relationships, lookupField, items);
      var end := Run(w, tasks, Initial(w, relationships, lookupField, items), steps).value;
      |end.items| == |items| &&
      forall i :: 0 <= i < |items| ==>
        SameUpToOrder(relationships, end.items[i], Extended(w, relationships, lookupField, items[i]).0)
  {
    var tasks := AllTasks(w, relationships, lookupField, items);
    var start := PreparedItems(w, relationships, lookupField, items);
    var s := Initial(w, relationships, lookupField, items);
    TasksHaveLists(w, relationships, lookupField, items);
    InitialInvariant(w, relationships, lookupField, items);
    RunKeepsInvariant(w, tasks, start, s, steps);
    var end := Run(w, tasks, s, steps).value;
    forall i | 0 <= i < |items|
      ensures SameUpToOrder(relationships, end.items[i], Extended(w, relationships, lookupField, items[i]).0)
    {
      FinishedItem(w, relationships, lookupField, items, end, i);
    }
  }

  lemma FinishedItem(w: World, relationships: seq<Directed>, lookupField: Text, items: seq<Fields>, end: State, i: nat)
    requires SyncSucceeds(w, relationships, lookupField, items) && i < |items|
    requires Invariant(w, AllTasks(w, relationships, lookupField, items),
                       PreparedItems(w, relationships, lookupField, items), end)
    requires AllDone(end)
    ensures SameUpToOrder(relationships, end.items[i], Extended(w, relationships, lookupField, items[i]).0)
  {
    var tasks := AllTasks(w, relationships, lookupField, items);
    var start := PreparedItems(w, relationships, lookupField, items);
    var lookups := ItemLookups(w, relationships, lookupField, items[i]);
    var sync := Extended(w, relationships, lookupField, items[i]).0;
    SyncItem(w, relationships, lookupField, items[i]);
    PreparedItem(w, relationships, lookupField, items[i]);
    assert ItemGrown(w, tasks, end, i, start[i]);
    forall k | k in end.items[i] && k in KeysOf(relationships)
      ensures end.items[i][k].Arr? && sync[k].Arr? && multiset(end.items[i][k].elems) == multiset(sync[k].elems)
    {
      AllDoneIsBag(w, tasks, end.progress, i, k);
      BagOfAllTasks(w, relationships, lookupField, items, i, k);
      CollectedSplit(w, lookups, k);
      assert ListGrown(start[i][k], end.items[i][k], DoneBag(w, tasks, end.progress, i, k));
    }
    forall k | k in end.items[i] && k !in KeysOf(relationships) ensures end.items[i][k] == sync[k] {
      AllDoneIsBag(w, tasks, end.progress, i, k);
      BagOfAllTasks(w, relationships, lookupField, items, i, k);
      NoRemoteRecords(w, relationships, lookupField, items[i], k);
      assert ListGrown(start[i][k], end.items[i][k], DoneBag(w, tasks, end.progress, i, k));
    }
  }

  /** A field that is no relationship key has no tasks. */
  lemma NoRemoteRecords(w: World, relationships: seq<Directed>, lookupField: Text, fields: Fields, k: Text)
    requires k !in KeysOf(relationships)
    ensures Collected(w, RemoteOnly(ItemLookups(w, relationships, lookupField, fields)), k) == []
  {
    var remote := RemoteOnly(ItemLookups(w, relationships, lookupField, fields));
    PartsOfLookups(ItemLookups(w, relationships, lookupField, fields));
    forall i | 0 <= i < |remote| ensures remote[i].0.key in KeysOf(relationships) {
      LookupInRelationships(w, relationships, lookupField, fields, remote[i]);
    }
    AppendedOnlyUnderKeys(w, fields, remote, KeysOf(relationships));
  }
}
