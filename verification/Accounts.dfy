/** The account manager: its configuration in memory, the copy on disk, and what
    failed writes, crashes and power losses do to them. */
module Accounts {
  import opened Options
  import opened AccountOrder

  const U32 := 0x1_0000_0000

  datatype Config = Config(selected: Id, nextId: Id, accounts: seq<Id>, order: seq<Id>)

  /** `images` are the contents that a power loss may leave behind; `file` is what
      a reader finds now. */
  datatype Disk = Disk(file: Config, images: set<Config>)

  /** How writing the file ends: done, failed before the rename, or failed after it. */
  datatype Write = Saved | FailedEarly | FailedLate

  /** An open account manager. `live` are the accounts that are loaded. */
  datatype Manager = Manager(config: Config, live: set<Id>, disk: Disk)

  // ------------------------------------------------------------- operations

  function Save(m: Manager, w: Write): Manager {
    match w
    case Saved => m.(disk := Disk(m.config, {m.config}))
    case FailedEarly => m
    case FailedLate => m.(disk := Disk(m.config, m.disk.images + {m.config}))
  }

  /** The configuration with a new account; the counter is a 32-bit number. */
  function Grown(c: Config): Config {
    c.(nextId := (c.nextId + 1) % U32, accounts := c.accounts + [c.nextId], order := c.order + [c.nextId])
  }

  function SelectAccount(m: Manager, id: Id, w: Write): Manager {
    if id in m.config.accounts then Save(m.(config := m.config.(selected := id)), w) else m
  }

  function NewAccount(m: Manager, w1: Write, w2: Write): Manager {
    var grown := Save(m.(config := Grown(m.config)), w1);
    if w1.Saved? then SelectAccount(grown, m.config.nextId, w2) else grown
  }

  /** Adding an account; `usable` says that its files could be opened. The ID is
      returned only if nothing failed. */
  function AddAccount(m: Manager, w1: Write, w2: Write, usable: bool): (Manager, Option<Id>) {
    var id := m.config.nextId;
    var m' := NewAccount(m, w1, w2);
    if w1.Saved? && w2.Saved? && usable then (m'.(live := m'.live + {id}), Some(id)) else (m', None)
  }

  /** Migrating an account; `present` says that it has a database and a blob directory,
      `usable` that its files could be moved and opened. The branch that is meant to
      take a failed migration back is never reached. */
  function MigrateAccount(m: Manager, present: bool, w1: Write, w2: Write, usable: bool): (Manager, Option<Id>) {
    if present then AddAccount(m, w1, w2, usable) else (m, None)
  }

  function RemoveFirst(s: seq<Id>, x: Id): seq<Id> {
    if s == [] then [] else if s[0] == x then s[1..] else [s[0]] + RemoveFirst(s[1..], x)
  }

  function Shrunk(c: Config, id: Id): Config {
    var accounts := RemoveFirst(c.accounts, id);
    var first := if accounts == [] then 0 else accounts[0];
    c.(accounts := accounts,
       order := Keep(c.order, Elements(c.order) - {id}),
       selected := if c.selected == id then first else c.selected)
  }

  /** `removed` says that the account's directory could be removed. */
  function RemoveAccount(m: Manager, id: Id, removed: bool, w: Write): Manager {
    if id !in m.live then m
    else
      var m' := m.(live := m.live - {id});
      if id in m.config.accounts && !removed then m'
      else Save(m'.(config := Shrunk(m.config, id)), w)
  }

  function SetOrder(m: Manager, order: seq<Id>, w: Write): Manager {
    Save(m.(config := m.config.(order := Stored(order, m.live))), w)
  }

  /** The manager as an object; the outcomes of file operations are arguments. */
  class AccountManager {
    var config: Config
    var live: set<Id>
    var disk: Disk

    ghost function Value(): Manager
      reads this
    {
      Manager(config, live, disk)
    }

    constructor Open(d: Disk)
      ensures Value() == Manager(d.file, Elements(d.file.accounts), d)
    {
      config, live, disk := d.file, Elements(d.file.accounts), d;
    }

    method Sync(w: Write) returns (ok: bool)
      modifies this`disk
      ensures Value() == Save(old(Value()), w) && ok == w.Saved?
    {
      ok := w.Saved?;
      if !w.FailedEarly? {
        disk := Disk(config, if ok then {config} else disk.images + {config});
      }
    }

    method Select(id: Id, w: Write) returns (ok: bool)
      modifies this`config, this`disk
      ensures Value() == SelectAccount(old(Value()), id, w)
      ensures ok == (id in old(config).accounts && w.Saved?)
    {
      if id !in config.accounts { return false; }
      config := config.(selected := id);
      ok := Sync(w);
    }

    method New(w1: Write, w2: Write) returns (id: Option<Id>)
      modifies this`config, this`disk
      ensures Value() == NewAccount(old(Value()), w1, w2)
      ensures id == if w1.Saved? && w2.Saved? then Some(old(config).nextId) else None
    {
      var next := config.nextId;
      config := config.(accounts := config.accounts + [next]);
      config := config.(nextId := (config.nextId + 1) % U32);
      config := config.(order := config.order + [next]);
      var ok := Sync(w1);
      if !ok { return None; }
      ok := Select(next, w2);
      id := if ok then Some(next) else None;
    }

    method Add(w1: Write, w2: Write, usable: bool) returns (id: Option<Id>)
      modifies this
      ensures (Value(), id) == AddAccount(old(Value()), w1, w2, usable)
    {
      id := New(w1, w2);
      if id.None? { return; }
      if !usable { return None; }
      live := live + {id.value};
    }

    method Migrate(present: bool, w1: Write, w2: Write, usable: bool) returns (id: Option<Id>)
      modifies this
      ensures (Value(), id) == MigrateAccount(old(Value()), present, w1, w2, usable)
    {
      if !present { return None; }
      id := New(w1, w2);
      if id.None? { return; }
      if !usable { return None; }
      live := live + {id.value};
    }

    method Remove(id: Id, removed: bool, w: Write) returns (ok: bool)
      modifies this
      ensures Value() == RemoveAccount(old(Value()), id, removed, w)
      ensures ok <==> id in old(live) && (id in old(config).accounts ==> removed) && w.Saved?
    {
      if id !in live { return false; }
      live := live - {id};
      if id in config.accounts && !removed { return false; }
      var accounts := RemoveFirst(config.accounts, id);
      var selected := config.selected;
      if selected == id { selected := if accounts == [] then 0 else accounts[0]; }
      config := config.(accounts := accounts, order := Keep(config.order, Elements(config.order) - {id}),
                        selected := selected);
      ok := Sync(w);
    }

    method SetAccountsOrder(order: seq<Id>, w: Write) returns (ok: bool)
      modifies this
      ensures Value() == SetOrder(old(Value()), order, w) && ok == w.Saved?
    {
      var stored := OrderToStore(order, live);
      config := config.(order := stored);
      ok := Sync(w);
    }
  }

  // ------------------------------------------------------------- whole runs

  /** The manager while a process runs, the disk, and every ID returned so far. */
  datatype Sys = Sys(manager: Option<Manager>, disk: Disk, returned: seq<Id>)

  datatype Step =
    | Open
    | Crash
    | PowerLoss(image: Config)
    | Add(w1: Write, w2: Write, usable: bool)
    | Migrate(present: bool, w1: Write, w2: Write, usable: bool)
    | Remove(id: Id, removed: bool, w: Write)
    | Select(id: Id, w: Write)
    | Order(order: seq<Id>, w: Write)

  predicate Enabled(s: Sys, step: Step) {
    match step
    case Open => s.manager.None?
    case Crash => s.manager.Some?
    case PowerLoss(image) => image in s.disk.images
    case _ => s.manager.Some?
  }

  function With(s: Sys, m: Manager): Sys { s.(manager := Some(m), disk := m.disk) }

  function Returned(ids: seq<Id>, id: Option<Id>): seq<Id> { if id.Some? then ids + [id.value] else ids }

  function Apply(s: Sys, step: Step): Sys
    requires Enabled(s, step)
  {
    match step
    case Open => s.(manager := Some(Manager(s.disk.file, Elements(s.disk.file.accounts), s.disk)))
    case Crash => s.(manager := None)
    case PowerLoss(image) => s.(manager := None, disk := Disk(image, {image}))
    case Add(w1, w2, usable) =>
      var (m, id) := AddAccount(s.manager.value, w1, w2, usable);
      With(s, m).(returned := Returned(s.returned, id))
    case Migrate(present, w1, w2, usable) =>
      var (m, id) := MigrateAccount(s.manager.value, present, w1, w2, usable);
      With(s, m).(returned := Returned(s.returned, id))
    case Remove(id, removed, w) => With(s, RemoveAccount(s.manager.value, id, removed, w))
    case Select(id, w) => With(s, SelectAccount(s.manager.value, id, w))
    case Order(order, w) => With(s, SetOrder(s.manager.value, order, w))
  }

  /** A fresh accounts directory. */
  predicate Initial(s: Sys) {
    var c := Config(0, 1, [], []);
    s == Sys(None, Disk(c, {c}), [])
  }

  ghost predicate IsRun(run: seq<Sys>, steps: seq<Step>) {
    && |run| == |steps| + 1
    && Initial(run[0])
    && forall i :: 0 <= i < |steps| ==>
         Enabled(run[i], steps[i]) && run[i + 1] == Apply(run[i], steps[i])
  }

  /** The step takes a new ID. */
  predicate TakesId(step: Step) { step.Add? || (step.Migrate? && step.present) }

  /** Up to state `i`, no ID is taken after the counter has started over. */
  ghost predicate NotOver(run: seq<Sys>, steps: seq<Step>, i: nat)
    requires |run| == |steps| + 1 && i < |run|
  {
    forall j :: 0 <= j < i && TakesId(steps[j]) && run[j].manager.Some? ==>
      run[j].manager.value.config.nextId != 0
  }

  // ------------------------------------------- what an entry refers to exists

  ghost predicate Referenced(c: Config) {
    && (forall x :: x in c.order ==> x in c.accounts)
    && (c.selected == 0 || c.selected in c.accounts)
  }

  ghost predicate AllReferenced(d: Disk) {
    d.file in d.images && forall c :: c in d.images ==> Referenced(c)
  }

  ghost predicate Loaded(m: Manager) {
    AllReferenced(m.disk) && Referenced(m.config) && forall x :: x in m.live ==> x in m.config.accounts
  }

  ghost predicate RefInv(s: Sys) {
    AllReferenced(s.disk) && (s.manager.Some? ==> Loaded(s.manager.value) && s.manager.value.disk == s.disk)
  }

  lemma SaveKeepsLoaded(m: Manager, w: Write)
    requires Loaded(m)
    ensures Loaded(Save(m, w))
  {
  }

  lemma AddKeepsLoaded(m: Manager, w1: Write, w2: Write, usable: bool)
    requires Loaded(m)
    ensures Loaded(AddAccount(m, w1, w2, usable).0)
  {
    var grown := m.(config := Grown(m.config));
    SaveKeepsLoaded(grown, w1);
    SaveKeepsLoaded(Save(grown, w1).(config := Grown(m.config).(selected := m.config.nextId)), w2);
  }

  lemma {:induction false} RemoveFirstKeeps(s: seq<Id>, x: Id)
    ensures forall y :: y in RemoveFirst(s, x) ==> y in s
    ensures forall y :: y in s && y != x ==> y in RemoveFirst(s, x)
  {
    if s != [] {
      RemoveFirstKeeps(s[1..], x);
      assert forall y :: y in s <==> y == s[0] || y in s[1..];
    }
  }

  lemma RemoveKeepsLoaded(m: Manager, id: Id, removed: bool, w: Write)
    requires Loaded(m)
    ensures Loaded(RemoveAccount(m, id, removed, w))
  {
    RemoveFirstKeeps(m.config.accounts, id);
    KeepElements(m.config.order, Elements(m.config.order) - {id});
    SaveKeepsLoaded(m.(live := m.live - {id}, config := Shrunk(m.config, id)), w);
  }

  lemma StoredElements(order: seq<Id>, live: set<Id>)
    ensures forall x :: x in Stored(order, live) <==> x in live
  {
    KeepElements(order, live);
    AscendingIsSorted(live - Elements(order));
  }

  lemma OrderKeepsLoaded(m: Manager, order: seq<Id>, w: Write)
    requires Loaded(m)
    ensures Loaded(SetOrder(m, order, w))
  {
    StoredElements(order, m.live);
    SaveKeepsLoaded(m.(config := m.config.(order := Stored(order, m.live))), w);
  }

  lemma StepKeepsRefs(s: Sys, step: Step)
    requires RefInv(s) && Enabled(s, step)
    ensures RefInv(Apply(s, step))
  {
    match step
    case Add(w1, w2, usable) => AddKeepsLoaded(s.manager.value, w1, w2, usable);
    case Migrate(_, w1, w2, usable) => AddKeepsLoaded(s.manager.value, w1, w2, usable);
    case Remove(id, removed, w) => RemoveKeepsLoaded(s.manager.value, id, removed, w);
    case Select(id, w) =>
      var m := s.manager.value;
      if id in m.config.accounts { SaveKeepsLoaded(m.(config := m.config.(selected := id)), w); }
    case Order(order, w) => OrderKeepsLoaded(s.manager.value, order, w);
    case _ =>
  }

  lemma {:induction false} RunKeepsRefs(run: seq<Sys>, steps: seq<Step>, i: nat)
    requires IsRun(run, steps) && i < |run|
    ensures RefInv(run[i])
  {
    if i > 0 {
      RunKeepsRefs(run, steps, i - 1);
      StepKeepsRefs(run[i - 1], steps[i - 1]);
    }
  }

  /** In every state of every run, loaded and ordered accounts are configured ones,
      and the selected one is configured, unless none is selected. */
  lemma ReferencesAreConfigured(run: seq<Sys>, steps: seq<Step>, i: nat)
    requires IsRun(run, steps) && i < |run| && run[i].manager.Some?
    ensures var m := run[i].manager.value;
            && m.live <= Elements(m.config.accounts)
            && Elements(m.config.order) <= Elements(m.config.accounts)
            && (m.config.selected == 0 || m.config.selected in m.config.accounts)
  {
    RunKeepsRefs(run, steps, i);
  }

  // --------------------------------------------------------------- account IDs

  /** The next ID, where a counter that has started over stands at the end. */
  function Next(c: Config): nat { if c.nextId == 0 then U32 else c.nextId }

  ghost predicate Numbered(c: Config) {
    && c.nextId < U32
    && (forall x :: x in c.accounts ==> 1 <= x < Next(c))
    && (forall i, j :: 0 <= i < j < |c.accounts| ==> c.accounts[i] != c.accounts[j])
  }

  /** All configurations are numbered, and none would hand out an ID at or below `top` again. */
  ghost predicate Fresh(d: Disk, top: Id) {
    d.file in d.images && forall c :: c in d.images ==> Numbered(c) && top < Next(c)
  }

  ghost predicate FreshManager(m: Manager, top: Id) {
    Fresh(m.disk, top) && Numbered(m.config) && top < Next(m.config)
  }

  function Top(ids: seq<Id>): Id { if ids == [] then 0 else ids[|ids| - 1] }

  ghost predicate Increasing(ids: seq<Id>) { forall i, j :: 0 <= i < j < |ids| ==> ids[i] < ids[j] }

  ghost predicate Inv(s: Sys) {
    && Fresh(s.disk, Top(s.returned)) && Increasing(s.returned)
    && (s.manager.Some? ==> FreshManager(s.manager.value, Top(s.returned)) && s.manager.value.disk == s.disk)
  }

  lemma SaveKeeps(m: Manager, w: Write, top: Id)
    requires FreshManager(m, top)
    ensures FreshManager(Save(m, w), top)
  {
  }

  lemma GrownIsNumbered(c: Config)
    requires Numbered(c) && c.nextId != 0
    ensures Numbered(Grown(c)) && Next(Grown(c)) == c.nextId + 1 && c.nextId !in c.accounts
  {
    forall i | 0 <= i < |c.accounts| ensures c.accounts[i] != c.nextId {
      assert c.accounts[i] in c.accounts;
    }
  }

  lemma AddKeeps(m: Manager, w1: Write, w2: Write, usable: bool, top: Id)
    requires FreshManager(m, top) && m.config.nextId != 0
    ensures var (m', id) := AddAccount(m, w1, w2, usable);
            FreshManager(m', if id.Some? then id.value else top) && (id.Some? ==> top < id.value)
  {
    GrownIsNumbered(m.config);
    var grown := m.(config := Grown(m.config));
    SaveKeeps(grown, w1, top);
    if w1.Saved? {
      var id := m.config.nextId;
      var chosen := Save(grown, w1).(config := Grown(m.config).(selected := id));
      SaveKeeps(chosen, w2, id);
    }
  }

  lemma {:induction false} RemoveFirstDistinct(s: seq<Id>, x: Id)
    requires forall i, j :: 0 <= i < j < |s| ==> s[i] != s[j]
    ensures forall y :: y in RemoveFirst(s, x) <==> y in s && y != x
    ensures forall i, j :: 0 <= i < j < |RemoveFirst(s, x)| ==> RemoveFirst(s, x)[i] != RemoveFirst(s, x)[j]
  {
    if s != [] {
      RemoveFirstDistinct(s[1..], x);
      assert forall y :: y in s <==> y == s[0] || y in s[1..];
      assert forall y :: y in s[1..] ==> y != s[0];
      var rest := RemoveFirst(s[1..], x);
      forall i | 0 <= i < |rest| ensures rest[i] != s[0] {
        assert rest[i] in rest;
      }
    }
  }

  /** Removal takes out exactly one account and keeps the counter. */
  lemma ShrunkIsNumbered(c: Config, id: Id)
    requires Numbered(c)
    ensures Numbered(Shrunk(c, id)) && Shrunk(c, id).nextId == c.nextId
    ensures forall x :: x in Shrunk(c, id).accounts <==> x in c.accounts && x != id
  {
    RemoveFirstDistinct(c.accounts, id);
  }

  lemma RemoveKeeps(m: Manager, id: Id, removed: bool, w: Write, top: Id)
    requires FreshManager(m, top)
    ensures FreshManager(RemoveAccount(m, id, removed, w), top)
  {
    ShrunkIsNumbered(m.config, id);
    SaveKeeps(m.(live := m.live - {id}, config := Shrunk(m.config, id)), w, top);
  }

  lemma ReturnKeeps(ids: seq<Id>, id: Option<Id>)
    requires Increasing(ids) && (id.Some? ==> Top(ids) < id.value)
    ensures Increasing(Returned(ids, id)) && Top(Returned(ids, id)) == if id.Some? then id.value else Top(ids)
  {
  }

  lemma TakeIdKeeps(s: Sys, w1: Write, w2: Write, usable: bool)
    requires Inv(s) && s.manager.Some? && s.manager.value.config.nextId != 0
    ensures var (m, id) := AddAccount(s.manager.value, w1, w2, usable);
            Inv(With(s, m).(returned := Returned(s.returned, id)))
  {
    AddKeeps(s.manager.value, w1, w2, usable, Top(s.returned));
    ReturnKeeps(s.returned, AddAccount(s.manager.value, w1, w2, usable).1);
  }

  lemma StepKeeps(s: Sys, step: Step)
    requires Inv(s) && Enabled(s, step)
    requires TakesId(step) ==> s.manager.value.config.nextId != 0
    ensures Inv(Apply(s, step))
  {
    var top := Top(s.returned);
    match step
    case Add(w1, w2, usable) => TakeIdKeeps(s, w1, w2, usable);
    case Migrate(present, w1, w2, usable) => if present { TakeIdKeeps(s, w1, w2, usable); }
    case Remove(id, removed, w) => RemoveKeeps(s.manager.value, id, removed, w, top);
    case Select(id, w) => SaveKeeps(s.manager.value.(config := s.manager.value.config.(selected := id)), w, top);
    case Order(order, w) =>
      var m := s.manager.value;
      SaveKeeps(m.(config := m.config.(order := Stored(order, m.live))), w, top);
    case _ =>
  }

  lemma {:induction false} RunInv(run: seq<Sys>, steps: seq<Step>, i: nat)
    requires IsRun(run, steps) && i < |run| && NotOver(run, steps, i)
    ensures Inv(run[i])
  {
    if i > 0 {
      RunInv(run, steps, i - 1);
      StepKeeps(run[i - 1], steps[i - 1]);
    }
  }

  /** Over the whole history, with failed writes, crashes, power losses and
      reopenings, the IDs returned to callers strictly increase until the 32-bit
      counter has started over. */
  lemma IdsAreNeverReused(run: seq<Sys>, steps: seq<Step>, i: nat, a: nat, b: nat)
    requires IsRun(run, steps) && i < |run| && NotOver(run, steps, i)
    requires a < b < |run[i].returned|
    ensures run[i].returned[a] < run[i].returned[b]
  {
    RunInv(run, steps, i);
  }

  /** And not longer: the next ID is a proper one, above all returned so far, exactly
      if the counter has not started over. */
  lemma NextIdIsNew(run: seq<Sys>, steps: seq<Step>, i: nat, id: Id)
    requires IsRun(run, steps) && i < |steps| && NotOver(run, steps, i)
    requires TakesId(steps[i]) && run[i + 1].returned == run[i].returned + [id]
    ensures 1 <= id && (forall x :: x in run[i].returned ==> x < id) <==>
            run[i].manager.value.config.nextId != 0
  {
    RunInv(run, steps, i);
    assert run[i + 1].returned[|run[i].returned|] == id == run[i].manager.value.config.nextId;
  }

  /** With the last number the counter starts over: the next account gets ID 0,
      which stands for "none selected", and the one after it gets ID 1 again. */
  lemma FullCounterStartsOver(m: Manager)
    requires m.config.nextId == U32 - 1
    ensures AddAccount(m, Saved, Saved, true).0.config.nextId == 0
    ensures var m' := AddAccount(m, Saved, Saved, true).0;
            AddAccount(m', Saved, Saved, true).1 == Some(0)
            && AddAccount(m', Saved, Saved, true).0.config.nextId == 1
  {
  }

  // ------------------------------------------------------ undoing and failing

  lemma {:induction false} RemoveLast(s: seq<Id>, x: Id)
    requires x !in s
    ensures RemoveFirst(s + [x], x) == s
  {
    if s != [] {
      RemoveLast(s[1..], x);
      assert (s + [x])[1..] == s[1..] + [x];
    }
  }

  lemma {:induction false} KeepAll(order: seq<Id>, live: set<Id>)
    requires forall x :: x in order ==> x in live
    ensures Keep(order, live) == order
  {
    if order != [] {
      var front, last := order[..|order| - 1], order[|order| - 1];
      KeepAll(front, live);
      assert last in live && front + [last] == order;
    }
  }

  lemma KeepAllButLast(order: seq<Id>, x: Id)
    requires x !in order
    ensures Keep(order + [x], Elements(order + [x]) - {x}) == order
  {
    KeepAll(order, Elements(order + [x]) - {x});
    assert (order + [x])[..|order|] == order;
  }

  /** Removing the account just added and selected restores accounts and order, and
      uses up its ID; the selection comes back exactly if it was the first account. */
  lemma RemoveUndoesAdd(c: Config)
    requires Referenced(c) && Numbered(c) && c.nextId != 0
    ensures var c' := Shrunk(Grown(c).(selected := c.nextId), c.nextId);
            && c'.accounts == c.accounts && c'.order == c.order && Next(c') == c.nextId + 1
            && (c'.selected == c.selected <==> c.selected == if c.accounts == [] then 0 else c.accounts[0])
  {
    GrownIsNumbered(c);
    RemoveLast(c.accounts, c.nextId);
    KeepAllButLast(c.order, c.nextId);
  }

  /** A failed addition leaves its entry behind. It keeps the selection exactly if the
      first write failed, or the selected ID is the new one, which takes a full counter. */
  lemma FailedAddKeepsSelection(m: Manager, w1: Write, w2: Write, usable: bool)
    requires AddAccount(m, w1, w2, usable).1.None?
    ensures var m' := AddAccount(m, w1, w2, usable).0;
            && (m'.config.selected == m.config.selected <==> !w1.Saved? || m.config.selected == m.config.nextId)
            && m'.config.accounts == m.config.accounts + [m.config.nextId]
            && m'.config.order == m.config.order + [m.config.nextId]
            && (m.config.nextId < U32 - 1 ==> m'.config.nextId == m.config.nextId + 1)
            && m'.live == m.live
  {
  }

  /** A failed migration changes nothing at all, in memory or on disk, exactly if there
      is no database or no blob directory. Else the new account stays configured, and
      is selected once the first write has succeeded. */
  lemma FailedMigration(m: Manager, present: bool, w1: Write, w2: Write, usable: bool)
    requires MigrateAccount(m, present, w1, w2, usable).1.None?
    ensures var m' := MigrateAccount(m, present, w1, w2, usable).0;
            && (m' == m <==> !present)
            && (m'.config.selected == m.config.selected <==>
                !present || !w1.Saved? || m.config.selected == m.config.nextId)
            && (present ==> m'.config.accounts == m.config.accounts + [m.config.nextId])
            && m'.live == m.live
  {
    if present { FailedAddKeepsSelection(m, w1, w2, usable); }
  }

  // ------------------------------------------------- what operations achieve

  /** The steps that write the configuration, and whether their last write succeeded. */
  predicate Succeeds(m: Manager, step: Step) {
    match step
    case Add(_, _, _) => AddAccount(m, step.w1, step.w2, step.usable).1.Some?
    case Migrate(_, _, _, _) => MigrateAccount(m, step.present, step.w1, step.w2, step.usable).1.Some?
    case Remove(id, removed, w) => id in m.live && (id in m.config.accounts ==> removed) && w.Saved?
    case Select(id, w) => id in m.config.accounts && w.Saved?
    case Order(_, w) => w.Saved?
    case _ => false
  }

  /** After step `i` the process ends, by itself or with the power, and starts again. */
  ghost predicate Restarts(run: seq<Sys>, steps: seq<Step>, i: nat)
    requires |run| == |steps| + 1
  {
    i + 2 < |steps| && (steps[i + 1].Crash? || steps[i + 1].PowerLoss?) && steps[i + 2].Open?
  }

  lemma SuccessIsSaved(s: Sys, step: Step)
    requires Enabled(s, step) && s.manager.Some? && Succeeds(s.manager.value, step)
    ensures var s' := Apply(s, step);
            s'.manager.Some? && s'.disk == Disk(s'.manager.value.config, {s'.manager.value.config})
  {
  }

  /** What an operation that succeeded has put into the configuration is there after a
      crash or a loss of power, and all its accounts are loaded. */
  lemma SuccessIsDurable(run: seq<Sys>, steps: seq<Step>, i: nat)
    requires IsRun(run, steps) && i < |steps| && run[i].manager.Some?
    requires Succeeds(run[i].manager.value, steps[i]) && Restarts(run, steps, i)
    ensures run[i + 1].manager.Some? && run[i + 3].manager.Some?
    ensures var c := run[i + 1].manager.value.config;
            run[i + 3].manager.value.config == c && run[i + 3].manager.value.live == Elements(c.accounts)
  {
    SuccessIsSaved(run[i], steps[i]);
    assert run[i + 1] == Apply(run[i], steps[i]);
    assert run[i + 2] == Apply(run[i + 1], steps[i + 1]);
    assert run[i + 3] == Apply(run[i + 2], steps[i + 2]);
  }

  /** A write that fails before the rename changes nothing on disk; one that fails after
      it leaves the new or an older configuration, and never another one. */
  lemma FailedWrites(m: Manager)
    ensures Save(m, FailedEarly) == m
    ensures Save(m, FailedLate).disk.file == m.config
    ensures forall c :: c in Save(m, FailedLate).disk.images <==> c == m.config || c in m.disk.images
  {
  }

  /** An account that was added is loaded, configured, last in the order and selected;
      all others stay as they are. */
  lemma AddAchieves(m: Manager, w1: Write, w2: Write, usable: bool)
    requires AddAccount(m, w1, w2, usable).1.Some?
    ensures var (m', id) := AddAccount(m, w1, w2, usable);
            && id.value == m.config.nextId && m'.live == m.live + {id.value}
            && m'.config.accounts == m.config.accounts + [id.value]
            && m'.config.order == m.config.order + [id.value]
            && m'.config.selected == id.value
            && (m.config.nextId < U32 - 1 ==> m'.config.nextId == m.config.nextId + 1)
            && m'.disk == Disk(m'.config, {m'.config})
  {
  }

  lemma AddSucceeds(m: Manager, present: bool, w1: Write, w2: Write, usable: bool)
    ensures AddAccount(m, w1, w2, usable).1.Some? <==> w1.Saved? && w2.Saved? && usable
    ensures MigrateAccount(m, present, w1, w2, usable).1.Some? <==> present && w1.Saved? && w2.Saved? && usable
    ensures present ==> MigrateAccount(m, present, w1, w2, usable) == AddAccount(m, w1, w2, usable)
  {
  }

  lemma {:induction false} KeepOrder(order: seq<Id>, live: set<Id>, x: Id)
    ensures multiset(Keep(order, live))[x] == if x in live then multiset(order)[x] else 0
  {
    if order != [] {
      var front, last := order[..|order| - 1], order[|order| - 1];
      KeepOrder(front, live, x);
      assert order == front + [last];
      assert multiset(order) == multiset(front) + multiset{last};
      assert multiset(Keep(order, live)) == multiset(Keep(front, live)) + if last in live then multiset{last} else multiset{};
    }
  }

  /** A removed account is gone: not loaded, not configured, not in the order and not
      selected, in memory and in the file; if it was selected the first one left is. All
      others stay as they are. If writing fails this holds in memory. */
  lemma RemoveAchieves(m: Manager, id: Id)
    requires Numbered(m.config) && Referenced(m.config) && id in m.live && id >= 1
    ensures var m' := RemoveAccount(m, id, true, Saved);
            && m'.disk == Disk(m'.config, {m'.config}) && m'.live == m.live - {id}
            && id !in m'.config.accounts && id !in m'.config.order && m'.config.selected != id
            && (forall x :: x != id ==> (x in m'.config.accounts <==> x in m.config.accounts))
            && (forall x :: x != id ==> multiset(m'.config.order)[x] == multiset(m.config.order)[x])
            && m'.config.nextId == m.config.nextId
            && m'.config.selected == (if m.config.selected != id then m.config.selected
                                      else if m'.config.accounts == [] then 0 else m'.config.accounts[0])
    ensures forall w :: RemoveAccount(m, id, true, w).config == RemoveAccount(m, id, true, Saved).config
                        && RemoveAccount(m, id, true, w).live == m.live - {id}
  {
    var order := m.config.order;
    ShrunkIsNumbered(m.config, id);
    KeepElements(order, Elements(order) - {id});
    forall x | x != id ensures multiset(Keep(order, Elements(order) - {id}))[x] == multiset(order)[x] {
      KeepOrder(order, Elements(order) - {id}, x);
      assert x !in Elements(order) ==> multiset(order)[x] == 0;
    }
    var c := Shrunk(m.config, id);
    assert c.accounts != [] ==> c.accounts[0] in c.accounts;
  }

  lemma {:induction false} RemoveFirstIs(a: seq<Id>, x: Id, b: seq<Id>)
    requires x !in a
    ensures RemoveFirst(a + [x] + b, x) == a + b
  {
    if a == [] {
      assert a + [x] + b == [x] + b && a + b == b;
    } else {
      RemoveFirstIs(a[1..], x, b);
      assert (a + [x] + b)[1..] == a[1..] + [x] + b;
      assert [a[0]] + (a[1..] + b) == a + b;
    }
  }

  /** The others stay in their order, in the configuration and in the listing. */
  lemma RemoveKeepsOrder(c: Config, a: seq<Id>, id: Id, b: seq<Id>, live: set<Id>)
    requires c.accounts == a + [id] + b && id !in a
    ensures Shrunk(c, id).accounts == a + b
    ensures Listing(Shrunk(c, id).order, live - {id}) == Listing(c.order, live - {id})
  {
    RemoveFirstIs(a, id, b);
    var kept := Keep(c.order, Elements(c.order) - {id});
    ListingIgnoresUnknown(c.order, [], Elements(c.order) - {id}, live - {id});
    assert kept + [] == kept && c.order + [] == c.order;
  }

  /** One that is not loaded, or whose directory stays, is not removed; in the second
      case it is unloaded. */
  lemma RemoveFails(m: Manager, id: Id, removed: bool, w: Write)
    ensures id !in m.live ==> RemoveAccount(m, id, removed, w) == m
    ensures id in m.live && id in m.config.accounts && !removed ==>
              RemoveAccount(m, id, removed, w) == m.(live := m.live - {id})
  {
  }

  /** In every run, an account that was removed is not loaded when the process starts
      again, and neither selected nor in the order. */
  lemma RemovedStaysAway(run: seq<Sys>, steps: seq<Step>, i: nat)
    requires IsRun(run, steps) && i < |steps| && run[i].manager.Some? && NotOver(run, steps, i)
    requires steps[i].Remove? && Succeeds(run[i].manager.value, steps[i]) && Restarts(run, steps, i)
    ensures var m, id := run[i + 3].manager.value, steps[i].id;
            run[i + 3].manager.Some? && id !in m.live && id !in m.config.order && m.config.selected != id
  {
    RunInv(run, steps, i);
    RunKeepsRefs(run, steps, i);
    SuccessIsDurable(run, steps, i);
    var m, id := run[i].manager.value, steps[i].id;
    RemoveAchieves(m, id);
    assert run[i + 1] == Apply(run[i], steps[i]);
    assert RemoveAccount(m, id, steps[i].removed, Saved) == RemoveAccount(m, id, true, Saved);
  }

  /** A selected account is selected in memory and in the file, and nothing else changes;
      one that is not configured cannot be selected. */
  lemma SelectAchieves(m: Manager, id: Id, w: Write)
    ensures id in m.config.accounts ==>
              && SelectAccount(m, id, w).config == m.config.(selected := id)
              && SelectAccount(m, id, Saved).disk.file.selected == id
    ensures id !in m.config.accounts ==> SelectAccount(m, id, w) == m
    ensures SelectAccount(m, id, w).live == m.live
  {
  }

  /** After setting an order the loaded accounts are listed in it, in this process and,
      if all accounts are loaded, after the next start. Nothing else changes. */
  lemma OrderAchieves(m: Manager, order: seq<Id>, w: Write)
    ensures var m' := SetOrder(m, order, w);
            && Listing(m'.config.order, m'.live) == Listing(order, m.live)
            && m'.config == m.config.(order := m'.config.order) && m'.live == m.live
    ensures Listing(SetOrder(m, order, Saved).disk.file.order, m.live) == Listing(order, m.live)
  {
    StoredOrderIsListed(order, m.live);
  }

  /** The stored order keeps what the request repeats, and adds what it misses. */
  lemma StoredCounts(order: seq<Id>, live: set<Id>, x: Id)
    ensures multiset(Stored(order, live))[x] ==
              if x !in live then 0 else if x in order then multiset(order)[x] else 1
  {
    KeepOrder(order, live, x);
    AscendingOnce(live - Elements(order), x);
    assert multiset(Stored(order, live)) == multiset(Keep(order, live)) + multiset(Ascending(live - Elements(order)));
  }

  lemma {:induction false} AscendingOnce(s: set<Id>, x: Id)
    ensures multiset(Ascending(s))[x] == if x in s then 1 else 0
  {
    if s != {} { AscendingOnce(s - {Min(s)}, x); }
  }
}
