/** The shared-memory status tables kept by the parent process monitor: module states in an
    array with a count, process states in an array addressed through a list of entries, and
    the requests that add, remove and set them. */
module StatusTables {

  import opened Bytes

  const MAN_OFFLINE: int := 0
  const MAN_INIT: int := 2
  const AUTO_INIT: int := 3
  const ACTIVE: int := 4
  const STANDBY: int := 6
  const FAILED: int := 7
  const DOWN: int := 9
  const MAN_DISABLED: int := 14
  const BUSY_INIT: int := 19
  const STATE_MAX: int := 21
  const TYPE_SIZE: nat := 2
  const ID_SIZE: nat := 4
  const DML_PROC: string := "DMLProc"
  const DDL_PROC: string := "DDLProc"

  /** A slot of the module table; slot 0 is the system itself. */
  datatype Slot = Slot(name: string, state: int)

  /** A slot of the process table. */
  datatype Proc = Proc(state: int, pid: int)

  /** An entry of the process list: whose status is at which index of the process table. */
  datatype Entry = Entry(mod: string, process: string, index: nat)

  datatype Tables = Tables(modules: seq<Slot>, procs: seq<Proc>, list: seq<Entry>)

  /** A configured process. */
  datatype ProcConfig = ProcConfig(modType: string, process: string, activeStandby: bool, bootLaunch: int,
                                   launchId: int)

  function Prefix(s: string, n: nat): string {
    if n <= |s| then s[..n] else s
  }

  /** The type and the number in a module name. */
  function TypeOf(name: string): string {
    Prefix(name, TYPE_SIZE)
  }

  function IdOf(name: string): string {
    if |name| < TYPE_SIZE then [] else Prefix(name[TYPE_SIZE..], ID_SIZE)
  }

  /** Two modules of one type with different numbers. */
  predicate Mates(a: string, b: string) {
    TypeOf(a) == TypeOf(b) && IdOf(a) != IdOf(b)
  }

  // ------------------------------------------------------------------ process lookup

  function Lookup(list: seq<Entry>, mod: string, process: string): Option<nat> {
    if list == [] then None
    else if list[0].mod == mod && list[0].process == process then Some(list[0].index)
    else Lookup(list[1..], mod, process)
  }

  /** Every entry's index is a slot of the process table, and no two entries share one. */
  ghost predicate Separate(t: Tables) {
    && (forall i :: 0 <= i < |t.list| ==> t.list[i].index < |t.procs|)
    && (forall i, j :: 0 <= i < j < |t.list| ==> t.list[i].index != t.list[j].index)
  }

  lemma {:induction false} LookupMeans(list: seq<Entry>, mod: string, process: string)
    ensures var r := Lookup(list, mod, process);
            if r.Some? then exists i :: 0 <= i < |list| && list[i] == Entry(mod, process, r.value)
            else forall i :: 0 <= i < |list| ==> !(list[i].mod == mod && list[i].process == process)
  {
    if list != [] && !(list[0].mod == mod && list[0].process == process) {
      LookupMeans(list[1..], mod, process);
      assert forall i :: 1 <= i < |list| ==> list[i] == list[1..][i - 1];
      if Lookup(list[1..], mod, process).Some? {
        var i :| 0 <= i < |list[1..]| && list[1..][i] == Entry(mod, process, Lookup(list, mod, process).value);
        assert list[i + 1] == list[1..][i];
      }
    }
  }

  /** The map the process tables stand for. */
  function Get(t: Tables, mod: string, process: string): Option<Proc> {
    match Lookup(t.list, mod, process)
    case None => None
    case Some(i) => if i < |t.procs| then Some(t.procs[i]) else None
  }

  /** Writing at one entry's index changes that entry's status and no other's. */
  lemma WriteOne(t: Tables, mod: string, process: string, i: nat, p: Proc, mod': string, process': string)
    requires Separate(t) && Lookup(t.list, mod, process) == Some(i)
    ensures i < |t.procs|
    ensures Get(t.(procs := t.procs[i := p]), mod', process')
            == if mod' == mod && process' == process then Some(p) else Get(t, mod', process')
  {
    LookupMeans(t.list, mod, process);
    LookupMeans(t.list, mod', process');
  }

  // ------------------------------------------------------------------ setting a process

  predicate StandbyModule(modules: seq<Slot>, name: string) {
    exists i :: 1 <= i < |modules| && modules[i] == Slot(name, STANDBY)
  }

  /** The run type of the first configuration entry for a process of a module type. */
  function RunsActiveStandby(config: seq<ProcConfig>, modType: string, process: string): bool {
    if config == [] then false
    else if config[0].modType == modType && config[0].process == process then config[0].activeStandby
    else RunsActiveStandby(config[1..], modType, process)
  }

  /** The first configuration entry for the process decides. */
  lemma {:induction false} RunTypeIs(config: seq<ProcConfig>, modType: string, process: string)
    ensures RunsActiveStandby(config, modType, process) <==>
            exists i :: 0 <= i < |config| && Configures(config[i], modType, process) && config[i].activeStandby
                        && forall k :: 0 <= k < i ==> !Configures(config[k], modType, process)
  {
    if config != [] && !Configures(config[0], modType, process) {
      var rest := config[1..];
      RunTypeIs(rest, modType, process);
      assert forall i :: 1 <= i < |config| ==> config[i] == rest[i - 1];
      if i :| 0 <= i < |rest| && Configures(rest[i], modType, process) && rest[i].activeStandby
              && forall k :: 0 <= k < i ==> !Configures(rest[k], modType, process) {
        assert Configures(config[i + 1], modType, process) && config[i + 1].activeStandby;
      }
    }
  }

  predicate Configures(c: ProcConfig, modType: string, process: string) {
    c.modType == modType && c.process == process
  }

  /** The state a process really gets: one that runs active/standby is made standby on a
      standby module. `paired` is the module type's run type, None when it cannot be read. */
  function Granted(t: Tables, config: seq<ProcConfig>, paired: Option<bool>, mod: string, process: string,
                   state: int): int {
    if state == ACTIVE && RunsActiveStandby(config, TypeOf(mod), process) && paired == Some(true)
       && StandbyModule(t.modules, mod)
    then STANDBY else state
  }

  function Updated(p: Proc, state: int, pid: int): Proc {
    Proc(if state < STATE_MAX then state else p.state, if pid < 0 then 0 else if pid != 1 then pid else p.pid)
  }

  function SetProc(t: Tables, config: seq<ProcConfig>, paired: Option<bool>, mod: string, process: string, state: int,
                   pid: int): Tables {
    match Lookup(t.list, mod, process)
    case None => t
    case Some(i) =>
      if i >= |t.procs| then t
      else
        var st := Granted(t, config, paired, mod, process, state);
        if t.procs[i].state == ACTIVE && (st == MAN_INIT || st == AUTO_INIT) then t
        else
          var modules := if process == DML_PROC && (st == ACTIVE || st == BUSY_INIT) && |t.modules| > 0
                         then t.modules[0 := t.modules[0].(state := st)] else t.modules;
          t.(procs := t.procs[i := Updated(t.procs[i], st, pid)], modules := modules)
  }

  /** The request is taken: the process is listed, and it is not a return of an active
      process to initialisation. */
  predicate Accepted(t: Tables, mod: string, process: string, state: int) {
    var p := Get(t, mod, process);
    p.Some? && !(p.value.state == ACTIVE && (state == MAN_INIT || state == AUTO_INIT))
  }

  /** Setting a process is a map update: the process asked for gets the granted state and
      the process id, every other process keeps its own, and a request not taken changes
      nothing. */
  lemma SetProcUpdates(t: Tables, config: seq<ProcConfig>, paired: Option<bool>, mod: string, process: string,
                       state: int,
                       pid: int, mod': string, process': string)
    requires Separate(t)
    ensures var t' := SetProc(t, config, paired, mod, process, state, pid);
            var st := Granted(t, config, paired, mod, process, state);
            && Separate(t') && t'.list == t.list
            && (Accepted(t, mod, process, st) ==>
                  if mod' == mod && process' == process then
                    && Get(t', mod, process).Some?
                    && var (p, p') := (Get(t, mod, process).value, Get(t', mod, process).value);
                       && p'.state == (if st < STATE_MAX then st else p.state)
                       && p'.pid == (if pid == 1 then p.pid else if pid < 0 then 0 else pid)
                  else Get(t', mod', process') == Get(t, mod', process'))
            && (!Accepted(t, mod, process, st) ==> t' == t)
  {
    var i := Lookup(t.list, mod, process);
    if i.Some? {
      LookupMeans(t.list, mod, process);
      var st := Granted(t, config, paired, mod, process, state);
      WriteOne(t, mod, process, i.value, Updated(t.procs[i.value], st, pid), mod', process');
    }
  }

  // ------------------------------------------------------------------ adding modules

  /** The configured processes that a new module of this type runs. */
  predicate Wanted(c: ProcConfig, modType: string, pmWithUm: bool, parentType: string) {
    var borrowed := c.modType == "um" && modType == "pm" && pmWithUm;
    && !(c.bootLaunch == 0 && c.launchId == 0)
    && (c.modType == modType || borrowed || c.modType == "ChildExtOAMModule" || c.modType == "ChildOAMModule"
        || (c.modType == "ParentOAMModule" && modType == parentType))
    && !(borrowed && (c.process == DML_PROC || c.process == DDL_PROC))
  }

  /** The processes of a new module, in configuration order. */
  function WantedNames(config: seq<ProcConfig>, modType: string, pmWithUm: bool, parentType: string): seq<string> {
    if config == [] then []
    else
      var c := config[|config| - 1];
      WantedNames(config[..|config| - 1], modType, pmWithUm, parentType)
      + if Wanted(c, modType, pmWithUm, parentType) then [c.process] else []
  }

  /** A new module runs exactly the processes of the configuration entries meant for it. */
  lemma {:induction false} WantedNamesAre(config: seq<ProcConfig>, modType: string, pmWithUm: bool, parentType: string,
                                          process: string)
    ensures process in WantedNames(config, modType, pmWithUm, parentType) <==>
            exists c :: c in config && c.process == process && Wanted(c, modType, pmWithUm, parentType)
  {
    if config != [] {
      var n := |config| - 1;
      WantedNamesAre(config[..n], modType, pmWithUm, parentType, process);
      assert config == config[..n] + [config[n]];
    }
  }

  lemma {:induction false} WantedMonotone(config: seq<ProcConfig>, modType: string, pmWithUm: bool, parentType: string,
                                          j: nat)
    requires j <= |config|
    ensures |WantedNames(config[..j], modType, pmWithUm, parentType)|
            <= |WantedNames(config, modType, pmWithUm, parentType)|
  {
    if j == |config| {
      assert config[..j] == config;
    } else {
      var n := |config| - 1;
      WantedMonotone(config[..n], modType, pmWithUm, parentType, j);
      assert config[..n][..j] == config[..j];
    }
  }

  /** What launches runs on every module if it is meant for child modules, on modules of its own
      type, and on modules of the parent's type if it is meant for the parent; what neither
      boots nor launches runs nowhere. */
  lemma WantedKinds(config: seq<ProcConfig>, c: ProcConfig, modType: string, pmWithUm: bool, parentType: string)
    requires c in config && (c.bootLaunch != 0 || c.launchId != 0)
    ensures c.modType in {"ChildOAMModule", "ChildExtOAMModule"} ==>
              c.process in WantedNames(config, modType, pmWithUm, parentType)
    ensures c.modType == "ParentOAMModule" ==> c.process in WantedNames(config, parentType, pmWithUm, parentType)
    ensures c.process in WantedNames(config, c.modType, pmWithUm, parentType)
    ensures c.modType == "um" && c.process != DML_PROC && c.process != DDL_PROC ==>
              c.process in WantedNames(config, "pm", true, parentType)
  {
    WantedNamesAre(config, modType, pmWithUm, parentType, c.process);
    WantedNamesAre(config, parentType, pmWithUm, parentType, c.process);
    WantedNamesAre(config, c.modType, pmWithUm, parentType, c.process);
    WantedNamesAre(config, "pm", true, parentType, c.process);
  }

  lemma NotLaunched(config: seq<ProcConfig>, process: string, modType: string, pmWithUm: bool, parentType: string)
    requires forall c :: c in config && c.process == process ==> c.bootLaunch == 0 && c.launchId == 0
    ensures process !in WantedNames(config, modType, pmWithUm, parentType)
  {
    WantedNamesAre(config, modType, pmWithUm, parentType, process);
  }

  /** On a PM that also serves as a UM, the statement processors DMLProc and DDLProc are not
      taken from the UM's entries: they run only if an entry of another kind asks for them. */
  lemma NoBorrowedProcessors(config: seq<ProcConfig>, parentType: string, process: string)
    requires process == DML_PROC || process == DDL_PROC
    requires forall c :: c in config && c.process == process ==> c.modType == "um"
    ensures process !in WantedNames(config, "pm", true, parentType)
  {
    WantedNamesAre(config, "pm", true, parentType, process);
  }

  function AddProc(t: Tables, mod: string, process: string): Tables {
    t.(procs := t.procs + [Proc(MAN_OFFLINE, 0)], list := t.list + [Entry(mod, process, |t.procs|)])
  }

  function AddProcs(t: Tables, mod: string, names: seq<string>): Tables {
    if names == [] then t else AddProc(AddProcs(t, mod, names[..|names| - 1]), mod, names[|names| - 1])
  }

  function AddSlots(modules: seq<Slot>, mods: seq<string>): seq<Slot> {
    modules + seq(|mods|, i requires 0 <= i < |mods| => Slot(mods[i], MAN_DISABLED))
  }

  function AddAllProcs(t: Tables, mods: seq<string>, names: seq<string>): Tables {
    if mods == [] then t else AddProcs(AddAllProcs(t, mods[..|mods| - 1], names), mods[|mods| - 1], names)
  }

  lemma {:induction false} LookupAppend(list: seq<Entry>, e: Entry, mod: string, process: string)
    ensures Lookup(list + [e], mod, process)
            == if Lookup(list, mod, process).Some? then Lookup(list, mod, process)
               else if e.mod == mod && e.process == process then Some(e.index) else None
  {
    if list == [] {
      assert list + [e] == [e];
    } else {
      assert (list + [e])[1..] == list[1..] + [e];
      LookupAppend(list[1..], e, mod, process);
    }
  }

  lemma AddProcAdds(t: Tables, mod: string, process: string, mod': string, process': string)
    requires Separate(t)
    ensures var t' := AddProc(t, mod, process);
            Separate(t') && Get(t', mod', process')
                            == if Get(t, mod', process').Some? then Get(t, mod', process')
                               else if mod' == mod && process' == process then Some(Proc(MAN_OFFLINE, 0)) else None
  {
    var e := Entry(mod, process, |t.procs|);
    LookupAppend(t.list, e, mod', process');
    LookupMeans(t.list, mod', process');
  }

  lemma {:induction false} AddProcsAdds(t: Tables, mod: string, names: seq<string>, mod': string, process': string)
    requires Separate(t)
    ensures var t' := AddProcs(t, mod, names);
            Separate(t') && t'.modules == t.modules
            && Get(t', mod', process')
               == if Get(t, mod', process').Some? then Get(t, mod', process')
                  else if mod' == mod && process' in names then Some(Proc(MAN_OFFLINE, 0)) else None
  {
    if names != [] {
      var n := |names| - 1;
      AddProcsAdds(t, mod, names[..n], mod', process');
      AddProcAdds(AddProcs(t, mod, names[..n]), mod, names[n], mod', process');
      assert names == names[..n] + [names[n]];
    }
  }

  /** Adding modules keeps every process there was, gives each new module its configured
      processes, offline, and leaves no two entries with one index. */
  lemma {:induction false} AddAllAdds(t: Tables, mods: seq<string>, names: seq<string>, mod': string, process': string)
    requires Separate(t)
    ensures var t' := AddAllProcs(t, mods, names);
            Separate(t') && t'.modules == t.modules
            && Get(t', mod', process')
               == if Get(t, mod', process').Some? then Get(t, mod', process')
                  else if mod' in mods && process' in names then Some(Proc(MAN_OFFLINE, 0)) else None
  {
    if mods != [] {
      var n := |mods| - 1;
      AddAllAdds(t, mods[..n], names, mod', process');
      AddProcsAdds(AddAllProcs(t, mods[..n], names), mods[n], names, mod', process');
      assert mods == mods[..n] + [mods[n]];
    }
  }

  // ------------------------------------------------------------------ removing modules

  /** The list without a module's entries. */
  function Without(list: seq<Entry>, mod: string): seq<Entry> {
    if list == [] then []
    else (if list[0].mod == mod then [] else [list[0]]) + Without(list[1..], mod)
  }

  /** Scanning for a module from slot j on: a match is overwritten with the last slot. */
  function Scan(s: seq<Slot>, j: nat, name: string): seq<Slot>
    decreases |s| - j
  {
    if j >= |s| then s
    else if s[j].name == name then Scan(s[j := s[|s| - 1]][..|s| - 1], j + 1, name)
    else Scan(s, j + 1, name)
  }

  predicate Unique(s: seq<Slot>) {
    forall i, j :: 0 <= i < j < |s| ==> s[i].name != s[j].name
  }

  lemma {:induction false} ScanNothing(s: seq<Slot>, j: nat, name: string)
    requires forall i :: j <= i < |s| ==> s[i].name != name
    ensures Scan(s, j, name) == s
    decreases |s| - j
  {
    if j < |s| {
      ScanNothing(s, j + 1, name);
    }
  }

  lemma DropSlot(s: seq<Slot>, j: nat)
    requires Unique(s) && j < |s|
    ensures var r := s[j := s[|s| - 1]][..|s| - 1];
            Unique(r) && forall x :: x in r <==> x in s && x.name != s[j].name
  {
    var last := |s| - 1;
    var r := s[j := s[last]][..last];
    forall x | x in r
      ensures x in s && x.name != s[j].name
    {
      var i :| 0 <= i < |r| && r[i] == x;
      assert x == if i == j then s[last] else s[i];
    }
    forall x | x in s && x.name != s[j].name
      ensures x in r
    {
      var i :| 0 <= i < |s| && s[i] == x;
      assert i != j;
      assert r[if i == last then j else i] == x;
    }
  }

  /** Removing a module keeps every other module with its own state, and the names stay
      unique; only the order may change. */
  lemma {:induction false} ScanRemoves(s: seq<Slot>, j: nat, name: string)
    requires Unique(s) && forall i :: 0 <= i < j && i < |s| ==> s[i].name != name
    ensures var r := Scan(s, j, name); Unique(r) && forall x :: x in r <==> x in s && x.name != name
    decreases |s| - j
  {
    if j >= |s| {
    } else if s[j].name == name {
      var r := s[j := s[|s| - 1]][..|s| - 1];
      DropSlot(s, j);
      assert forall i :: 0 <= i < |r| ==> r[i] in r;
      ScanNothing(r, j + 1, name);
    } else {
      ScanRemoves(s, j + 1, name);
    }
  }

  lemma {:induction false} WithoutMeans(list: seq<Entry>, mod: string, mod': string, process': string)
    ensures Lookup(Without(list, mod), mod', process') == if mod' == mod then None else Lookup(list, mod', process')
    ensures forall e :: e in Without(list, mod) ==> e in list
  {
    if list != [] {
      WithoutMeans(list[1..], mod, mod', process');
      if list[0].mod != mod {
        assert ([list[0]] + Without(list[1..], mod))[1..] == Without(list[1..], mod);
      } else {
        assert [] + Without(list[1..], mod) == Without(list[1..], mod);
      }
    }
  }

  ghost predicate DistinctIndices(list: seq<Entry>) {
    forall i, j :: 0 <= i < j < |list| ==> list[i].index != list[j].index
  }

  lemma HeadApart(list: seq<Entry>)
    requires list != []
    ensures DistinctIndices(list) <==>
            DistinctIndices(list[1..]) && forall e :: e in list[1..] ==> e.index != list[0].index
  {
    var rest := list[1..];
    assert forall i :: 1 <= i < |list| ==> list[i] == rest[i - 1];
    assert forall i :: 0 <= i < |rest| ==> rest[i] == list[i + 1] && rest[i] in rest;
  }

  lemma {:induction false} WithoutSeparate(list: seq<Entry>, mod: string)
    requires DistinctIndices(list)
    ensures DistinctIndices(Without(list, mod))
  {
    if list != [] {
      var rest := Without(list[1..], mod);
      HeadApart(list);
      WithoutSeparate(list[1..], mod);
      WithoutMeans(list[1..], mod, mod, []);
      if list[0].mod != mod {
        assert ([list[0]] + rest)[1..] == rest;
        HeadApart([list[0]] + rest);
      } else {
        assert [] + rest == rest;
      }
    }
  }

  function RemoveOne(t: Tables, mod: string): Tables {
    t.(modules := Scan(t.modules, 0, mod), list := Without(t.list, mod))
  }

  /** Removing a module takes away that module and its processes and nothing else. */
  lemma RemoveOneRemoves(t: Tables, mod: string, mod': string, process': string)
    requires Separate(t) && Unique(t.modules)
    ensures var t' := RemoveOne(t, mod);
            && Separate(t') && Unique(t'.modules) && t'.procs == t.procs
            && (forall x :: x in t'.modules <==> x in t.modules && x.name != mod)
            && Get(t', mod', process') == if mod' == mod then None else Get(t, mod', process')
  {
    ScanRemoves(t.modules, 0, mod);
    WithoutMeans(t.list, mod, mod', process');
    WithoutSeparate(t.list, mod);
    var list := Without(t.list, mod);
    forall i | 0 <= i < |list|
      ensures list[i].index < |t.procs|
    {
      assert list[i] in t.list;
    }
  }

  function RemoveAll(t: Tables, mods: seq<string>): Tables {
    if mods == [] then t else RemoveOne(RemoveAll(t, mods[..|mods| - 1]), mods[|mods| - 1])
  }

  // ------------------------------------------------------------------ setting a module

  /** The first module from slot i on that is a mate of this one and in the given state. */
  function FirstMate(modules: seq<Slot>, i: nat, name: string, state: int): (r: Option<nat>)
    ensures r.Some? ==> i <= r.value < |modules| && modules[r.value].state == state
    ensures r.Some? ==> Mates(name, modules[r.value].name)
    ensures r.None? ==> forall k :: i <= k < |modules| ==> !(Mates(name, modules[k].name) && modules[k].state == state)
    decreases |modules| - i
  {
    if i >= |modules| then None
    else if Mates(name, modules[i].name) && modules[i].state == state then Some(i)
    else FirstMate(modules, i + 1, name, state)
  }

  function FirstNamed(modules: seq<Slot>, i: nat, name: string): (r: Option<nat>)
    ensures r.Some? ==> i <= r.value < |modules| && modules[r.value].name == name
    ensures r.None? ==> forall k :: i <= k < |modules| ==> modules[k].name != name
    decreases |modules| - i
  {
    if i >= |modules| then None
    else if modules[i].name == name then Some(i)
    else FirstNamed(modules, i + 1, name)
  }

  function SetState(t: Tables, mod: string, process: string, state: int): Tables {
    match Lookup(t.list, mod, process)
    case None => t
    case Some(i) => if i < |t.procs| then t.(procs := t.procs[i := t.procs[i].(state := state)]) else t
  }

  /** Sets every active/standby process of a module to a state. */
  function SetPaired(t: Tables, config: seq<ProcConfig>, mod: string, modType: string, state: int): Tables {
    if config == [] then t
    else
      var c := config[|config| - 1];
      var t1 := SetPaired(t, config[..|config| - 1], mod, modType, state);
      if c.modType == modType && c.activeStandby then SetState(t1, mod, c.process, state) else t1
  }

  predicate Demotion(state: int) {
    state == DOWN || state == MAN_OFFLINE || state == FAILED
  }

  function SetSlot(t: Tables, name: string, state: int): Tables {
    match FirstNamed(t.modules, 1, name)
    case None => t
    case Some(i) => t.(modules := t.modules[i := t.modules[i].(state := state)])
  }

  /** Sets a module's state.  In a type that runs active/standby a module that is to become
      active beside an active mate becomes standby instead, and the first standby mate of a
      module that goes down becomes active; their paired processes follow. */
  function SetModule(t: Tables, config: seq<ProcConfig>, paired: Option<bool>, name: string, state: int): Tables {
    if |name| < TYPE_SIZE || paired.None? then t
    else if !paired.value then SetSlot(t, name, state)
    else if state == ACTIVE then
      match FirstMate(t.modules, 1, name, ACTIVE)
      case None => SetSlot(t, name, state)
      case Some(i) => SetSlot(SetPaired(t, config, name, TypeOf(name), STANDBY), name, STANDBY)
    else if Demotion(state) then
      match FirstMate(t.modules, 1, name, STANDBY)
      case None => SetSlot(t, name, state)
      case Some(i) =>
        var promoted := t.(modules := t.modules[i := t.modules[i].(state := ACTIVE)]);
        SetSlot(SetPaired(promoted, config, t.modules[i].name, TypeOf(name), ACTIVE), name, state)
    else SetSlot(t, name, state)
  }

  lemma {:induction false} SetPairedKeeps(t: Tables, config: seq<ProcConfig>, mod: string, modType: string, state: int)
    ensures var t' := SetPaired(t, config, mod, modType, state);
            t'.modules == t.modules && t'.list == t.list && |t'.procs| == |t.procs|
  {
    if config != [] {
      SetPairedKeeps(t, config[..|config| - 1], mod, modType, state);
    }
  }

  /** The process is configured to run active/standby on modules of this type. */
  ghost predicate PairedProcess(config: seq<ProcConfig>, modType: string, process: string) {
    exists c :: c in config && c.modType == modType && c.activeStandby && c.process == process
  }

  lemma PairedLast(config: seq<ProcConfig>, modType: string, process: string)
    requires config != []
    ensures var c := config[|config| - 1];
            PairedProcess(config, modType, process) <==>
            PairedProcess(config[..|config| - 1], modType, process)
            || (c.modType == modType && c.activeStandby && c.process == process)
  {
    var n := |config| - 1;
    assert config == config[..n] + [config[n]];
  }

  /** The paired processes of the module take the state; all other processes keep theirs. */
  lemma {:induction false} SetPairedUpdates(t: Tables, config: seq<ProcConfig>, mod: string, modType: string,
                                            state: int,
                                            mod': string, process': string)
    requires Separate(t)
    ensures var t' := SetPaired(t, config, mod, modType, state);
            Separate(t') && Get(t', mod', process')
                            == var p := Get(t, mod', process');
                               if p.Some? && mod' == mod && PairedProcess(config, modType, process')
                               then Some(p.value.(state := state)) else p
  {
    if config != [] {
      var n := |config| - 1;
      var t1 := SetPaired(t, config[..n], mod, modType, state);
      SetPairedUpdates(t, config[..n], mod, modType, state, mod', process');
      PairedLast(config, modType, process');
      var c := config[n];
      if c.modType == modType && c.activeStandby {
        var i := Lookup(t1.list, mod, c.process);
        if i.Some? {
          LookupMeans(t1.list, mod, c.process);
          WriteOne(t1, mod, c.process, i.value, t1.procs[i.value].(state := state), mod', process');
        }
      }
    }
  }

  lemma SetSlotMeans(t: Tables, name: string, state: int, k: nat)
    requires Unique(t.modules) && 1 <= k < |t.modules|
    ensures var s := SetSlot(t, name, state).modules;
            |s| == |t.modules| && s[k] == if t.modules[k].name == name then Slot(name, state) else t.modules[k]
  {
  }

  /** What setting a module does to each slot of the table.  In a type that runs active/standby
      the module becomes standby if it is to be active and a mate is; if it is to be down,
      manually offline or failed, the first standby mate becomes active.  No other slot changes. */
  lemma SetModuleMeans(t: Tables, config: seq<ProcConfig>, paired: Option<bool>, name: string, state: int, k: nat)
    requires Unique(t.modules) && 1 <= k < |t.modules| && |name| >= 2 && paired.Some?
    ensures var s := SetModule(t, config, paired, name, state).modules;
            var (active, standby) := (FirstMate(t.modules, 1, name, ACTIVE), FirstMate(t.modules, 1, name, STANDBY));
            && |s| == |t.modules|
            && s[k] == if t.modules[k].name == name then
                         Slot(name, if paired.value && state == ACTIVE && active.Some? then STANDBY else state)
                       else if paired.value && state in {DOWN, MAN_OFFLINE, FAILED} && standby == Some(k) then
                         Slot(t.modules[k].name, ACTIVE)
                       else t.modules[k]
  {
    var standby := FirstMate(t.modules, 1, name, STANDBY);
    SetSlotMeans(t, name, state, k);
    SetPairedKeeps(t, config, name, TypeOf(name), STANDBY);
    SetSlotMeans(SetPaired(t, config, name, TypeOf(name), STANDBY), name, STANDBY, k);
    if standby.Some? {
      var i := standby.value;
      var promoted := t.(modules := t.modules[i := t.modules[i].(state := ACTIVE)]);
      SetPairedKeeps(promoted, config, t.modules[i].name, TypeOf(name), ACTIVE);
      assert Unique(promoted.modules);
      SetSlotMeans(SetPaired(promoted, config, t.modules[i].name, TypeOf(name), ACTIVE), name, state, k);
    }
  }

  // ------------------------------------------------------------------ at most one active mate

  /** No two mates of the type are both active. */
  predicate OneActive(modules: seq<Slot>, modType: string) {
    forall i, j :: 1 <= i < |modules| && 1 <= j < |modules| && TypeOf(modules[i].name) == modType
                   && Mates(modules[i].name, modules[j].name) ==>
      !(modules[i].state == ACTIVE && modules[j].state == ACTIVE)
  }

  /** Promoting the first standby mate of this module would leave a third module, neither
      the promoted one nor this one, active beside it. */
  predicate Clash(modules: seq<Slot>, name: string) {
    var p := FirstMate(modules, 1, name, STANDBY);
    p.Some? && exists q :: 1 <= q < |modules| && modules[q].state == ACTIVE && modules[q].name != name
                           && Mates(modules[p.value].name, modules[q].name)
  }

  lemma SetSlotActive(t: Tables, name: string, state: int)
    requires OneActive(t.modules, TypeOf(name))
    requires state == ACTIVE ==> FirstMate(t.modules, 1, name, ACTIVE).None?
    ensures OneActive(SetSlot(t, name, state).modules, TypeOf(name))
  {
  }

  lemma PromotionActive(modules: seq<Slot>, p: nat, name: string, state: int)
    requires Unique(modules) && OneActive(modules, TypeOf(name)) && state != ACTIVE
    requires 1 <= p < |modules| && Mates(name, modules[p].name) && modules[p].state == STANDBY
    ensures var up := modules[p := modules[p].(state := ACTIVE)];
            OneActive(SetSlot(Tables(up, [], []), name, state).modules, TypeOf(name)) <==>
            !exists q :: 1 <= q < |modules| && modules[q].state == ACTIVE && modules[q].name != name
                         && Mates(modules[p].name, modules[q].name)
  {
    var up := modules[p := modules[p].(state := ACTIVE)];
    var r := SetSlot(Tables(up, [], []), name, state).modules;
    assert modules[p].name != name;
    assert r[p] == Slot(modules[p].name, ACTIVE);
    assert forall k :: 1 <= k < |modules| && k != p && modules[k].name != name ==> r[k] == modules[k];
    assert forall k :: 1 <= k < |modules| && modules[k].name == name ==> r[k].state == state;
  }

  /** In a type that runs active/standby, setting a module keeps at most one of two mates
      active if and only if the request is not one that promotes a standby module beside a
      third, active one. */
  lemma OneActiveExactly(t: Tables, config: seq<ProcConfig>, name: string, state: int)
    requires Unique(t.modules) && OneActive(t.modules, TypeOf(name)) && |name| >= TYPE_SIZE
    ensures OneActive(SetModule(t, config, Some(true), name, state).modules, TypeOf(name)) <==>
            !(Demotion(state) && Clash(t.modules, name))
  {
    if state == ACTIVE {
      SetPairedKeeps(t, config, name, TypeOf(name), STANDBY);
      SetSlotActive(SetPaired(t, config, name, TypeOf(name), STANDBY), name, STANDBY);
      if FirstMate(t.modules, 1, name, ACTIVE).None? {
        SetSlotActive(t, name, state);
      }
    } else {
      SetSlotActive(t, name, state);
      var p := FirstMate(t.modules, 1, name, STANDBY);
      if Demotion(state) && p.Some? {
        var up := t.modules[p.value := t.modules[p.value].(state := ACTIVE)];
        SetPairedKeeps(t.(modules := up), config, t.modules[p.value].name, TypeOf(name), ACTIVE);
        PromotionActive(t.modules, p.value, name, state);
      }
    }
  }

  /** For a mated pair there is no such third module. */
  lemma PairNeverClashes(modules: seq<Slot>, a: nat, b: nat, name: string)
    requires 1 <= a < |modules| && 1 <= b < |modules| && name in {modules[a].name, modules[b].name}
    requires forall i :: 1 <= i < |modules| && TypeOf(modules[i].name) == TypeOf(name) ==> i == a || i == b
    ensures !Clash(modules, name)
  {
  }

  /** With three modules of a type, taking one down can leave two others active. */
  lemma TwoActive()
    ensures var slots := [Slot("system", ACTIVE), Slot("pm1", ACTIVE), Slot("pm2", STANDBY), Slot("pm3", STANDBY)];
            var t := Tables(slots, [], []);
            OneActive(t.modules, "pm") && !OneActive(SetModule(t, [], Some(true), "pm3", DOWN).modules, "pm")
  {
    var modules := [Slot("system", ACTIVE), Slot("pm1", ACTIVE), Slot("pm2", STANDBY), Slot("pm3", STANDBY)];
    assert TypeOf("pm1") == "pm" && TypeOf("pm2") == "pm" && TypeOf("pm3") == "pm";
    assert IdOf("pm1") == "1" && IdOf("pm2") == "2" && IdOf("pm3") == "3";
    assert Mates("pm3", modules[1].name) && Mates("pm3", modules[2].name) && Mates(modules[2].name, modules[1].name);
    assert FirstMate(modules, 1, "pm3", STANDBY) == Some(2);
    assert modules[1].name != "pm3";
    OneActiveExactly(Tables(modules, [], []), [], "pm3", DOWN);
  }

  // ------------------------------------------------------------------ refinement

  /** What the tables stand for: the system's state, the modules' states by name, and the
      processes' states by module and process name. */
  datatype Abs = Abs(system: int, modules: map<string, int>, procs: map<(string, string), Proc>)

  ghost predicate RepModules(s: seq<Slot>, m: map<string, int>) {
    && (forall i :: 1 <= i < |s| ==> s[i].name in m && m[s[i].name] == s[i].state)
    && (forall n :: n in m ==> exists i :: 1 <= i < |s| && s[i].name == n)
  }

  function Find(procs: map<(string, string), Proc>, mod: string, process: string): Option<Proc> {
    if (mod, process) in procs then Some(procs[(mod, process)]) else None
  }

  ghost predicate Represents(t: Tables, a: Abs) {
    && Separate(t) && Unique(t.modules) && t.modules != [] && t.modules[0].state == a.system
    && RepModules(t.modules, a.modules)
    && forall mod, process :: Get(t, mod, process) == Find(a.procs, mod, process)
  }

  datatype Op =
    | Add(mods: seq<string>, names: seq<string>)
    | Remove(mods: seq<string>)
    | SetProcess(config: seq<ProcConfig>, paired: Option<bool>, mod: string, process: string, state: int, pid: int)
    | SetModuleState(config: seq<ProcConfig>, paired: Option<bool>, name: string, state: int)

  function Apply(t: Tables, op: Op): Tables {
    match op
    case Add(mods, names) => AddAllProcs(t.(modules := AddSlots(t.modules, mods)), mods, names)
    case Remove(mods) => RemoveAll(t, mods)
    case SetProcess(config, paired, mod, process, state, pid) => SetProc(t, config, paired, mod, process, state, pid)
    case SetModuleState(config, paired, name, state) => SetModule(t, config, paired, name, state)
  }

  /** Names stay unique: added modules are new, and the system's slot is not removed. */
  predicate Legal(t: Tables, op: Op) {
    match op
    case Add(mods, _) => Unique(AddSlots(t.modules, mods))
    case Remove(mods) => t.modules != [] && t.modules[0].name !in mods
    case _ => true
  }

  function Put(modules: map<string, int>, name: string, state: int): map<string, int> {
    if name in modules then modules[name := state] else modules
  }

  ghost function Repaired(procs: map<(string, string), Proc>, config: seq<ProcConfig>, mod: string, modType: string,
                          state: int): map<(string, string), Proc> {
    map k | k in procs ::
      if k.0 == mod && PairedProcess(config, modType, k.1) then procs[k].(state := state) else procs[k]
  }

  ghost predicate MateIn(a: Abs, name: string, mate: string, state: int) {
    mate in a.modules && Mates(name, mate) && a.modules[mate] == state
  }

  /** The requests on the maps.  A module going down promotes some standby mate, if it has one. */
  ghost predicate Step(a: Abs, op: Op, a': Abs) {
    match op
    case Add(mods, names) =>
      && a'.system == a.system
      && a'.modules == a.modules + (map m | m in mods :: MAN_DISABLED)
      && a'.procs == (map m, p | m in mods && p in names :: (m, p) := Proc(MAN_OFFLINE, 0)) + a.procs
    case Remove(mods) => a' == DropAll(a, mods)
    case SetProcess(config, paired, mod, process, state, pid) =>
      var st := if state == ACTIVE && RunsActiveStandby(config, TypeOf(mod), process) && paired == Some(true)
                   && mod in a.modules && a.modules[mod] == STANDBY then STANDBY else state;
      var p := Find(a.procs, mod, process);
      if p.None? || (p.value.state == ACTIVE && (st == MAN_INIT || st == AUTO_INIT)) then a' == a
      else
        && a'.modules == a.modules
        && a'.procs == a.procs[(mod, process) := Proc(if st < STATE_MAX then st else p.value.state,
                                                      if pid == 1 then p.value.pid else if pid < 0 then 0 else pid)]
        && a'.system == if process == DML_PROC && (st == ACTIVE || st == BUSY_INIT) then st else a.system
    case SetModuleState(config, paired, name, state) =>
      if |name| < TYPE_SIZE || paired.None? then a' == a
      else if paired.value && state == ACTIVE && exists m :: MateIn(a, name, m, ACTIVE) then
        a' == Abs(a.system, Put(a.modules, name, STANDBY), Repaired(a.procs, config, name, TypeOf(name), STANDBY))
      else if paired.value && Demotion(state) && exists m :: MateIn(a, name, m, STANDBY) then
        exists m :: MateIn(a, name, m, STANDBY)
                    && a' == Abs(a.system, Put(a.modules[m := ACTIVE], name, state),
                                 Repaired(a.procs, config, m, TypeOf(name), ACTIVE))
      else a' == a.(modules := Put(a.modules, name, state))
  }

  lemma RepSet(s: seq<Slot>, m: map<string, int>, i: nat, state: int)
    requires Unique(s) && RepModules(s, m) && 1 <= i < |s|
    ensures var s' := s[i := s[i].(state := state)]; Unique(s') && RepModules(s', m[s[i].name := state])
  {
    var s' := s[i := s[i].(state := state)];
    assert forall k :: 0 <= k < |s| ==> s'[k].name == s[k].name;
  }

  lemma RepSetSlot(t: Tables, m: map<string, int>, name: string, state: int)
    requires Unique(t.modules) && RepModules(t.modules, m) && t.modules != []
    ensures var t' := SetSlot(t, name, state);
            Unique(t'.modules) && RepModules(t'.modules, Put(m, name, state)) && t' == t.(modules := t'.modules)
            && |t'.modules| == |t.modules| && t'.modules[0] == t.modules[0]
  {
    var i := FirstNamed(t.modules, 1, name);
    if i.Some? {
      RepSet(t.modules, m, i.value, state);
    } else {
      assert name !in m;
    }
  }

  lemma RepAdd(s: seq<Slot>, m: map<string, int>, mods: seq<string>)
    requires RepModules(s, m) && s != [] && Unique(AddSlots(s, mods))
    ensures RepModules(AddSlots(s, mods), m + (map x | x in mods :: MAN_DISABLED))
  {
    var s' := AddSlots(s, mods);
    var m' := m + (map x | x in mods :: MAN_DISABLED);
    forall i | 1 <= i < |s'|
      ensures s'[i].name in m' && m'[s'[i].name] == s'[i].state
    {
      if i < |s| {
        forall k | 0 <= k < |mods|
          ensures mods[k] != s[i].name
        {
          assert s'[i].name != s'[|s| + k].name;
        }
      }
    }
    forall n | n in m'
      ensures exists i :: 1 <= i < |s'| && s'[i].name == n
    {
      if n in mods {
        var k :| 0 <= k < |mods| && mods[k] == n;
        assert s'[|s| + k].name == n;
      } else {
        var i :| 1 <= i < |s| && s[i].name == n;
        assert s'[i].name == n;
      }
    }
  }

  lemma {:induction false} ScanKeepsFirst(s: seq<Slot>, j: nat, name: string)
    requires s != [] && (j == 0 ==> s[0].name != name)
    ensures Scan(s, j, name) != [] && Scan(s, j, name)[0] == s[0]
    decreases |s| - j
  {
    if j < |s| {
      if s[j].name == name {
        ScanKeepsFirst(s[j := s[|s| - 1]][..|s| - 1], j + 1, name);
      } else {
        ScanKeepsFirst(s, j + 1, name);
      }
    }
  }

  lemma RepShrunk(s: seq<Slot>, m: map<string, int>, r: seq<Slot>, name: string)
    requires Unique(s) && Unique(r) && RepModules(s, m) && s != [] && r != [] && r[0] == s[0]
    requires forall x :: x in r <==> x in s && x.name != name
    ensures forall i :: 1 <= i < |r| ==> r[i].name != name && r[i].name in m && m[r[i].name] == r[i].state
  {
    forall i | 1 <= i < |r|
      ensures r[i].name != name && r[i].name in m && m[r[i].name] == r[i].state
    {
      assert r[i] in r;
      var k :| 0 <= k < |s| && s[k] == r[i];
      assert r[0].name != r[i].name;
    }
  }

  lemma RepKept(s: seq<Slot>, m: map<string, int>, r: seq<Slot>, name: string, n: string)
    requires Unique(s) && RepModules(s, m) && s != [] && r != [] && r[0] == s[0]
    requires forall x :: x in r <==> x in s && x.name != name
    requires n in m && n != name
    ensures exists i :: 1 <= i < |r| && r[i].name == n
  {
    var k :| 1 <= k < |s| && s[k].name == n;
    assert s[k] in r;
    var i :| 0 <= i < |r| && r[i] == s[k];
    assert s[0].name != s[k].name;
  }

  lemma RepScan(s: seq<Slot>, m: map<string, int>, name: string)
    requires Unique(s) && RepModules(s, m) && s != [] && s[0].name != name
    ensures var r := Scan(s, 0, name);
            Unique(r) && r != [] && r[0] == s[0] && RepModules(r, map n | n in m && n != name :: m[n])
  {
    ScanRemoves(s, 0, name);
    ScanKeepsFirst(s, 0, name);
    var r := Scan(s, 0, name);
    RepShrunk(s, m, r, name);
    forall n | n in m && n != name
      ensures exists i :: 1 <= i < |r| && r[i].name == n
    {
      RepKept(s, m, r, name, n);
    }
  }

  lemma AddRefines(t: Tables, a: Abs, op: Op) returns (a': Abs)
    requires Represents(t, a) && Legal(t, op) && op.Add?
    ensures Step(a, op, a') && Represents(Apply(t, op), a')
  {
    var mods, names := op.mods, op.names;
    a' := Abs(a.system, a.modules + (map m | m in mods :: MAN_DISABLED),
              (map m, p | m in mods && p in names :: (m, p) := Proc(MAN_OFFLINE, 0)) + a.procs);
    RepAdd(t.modules, a.modules, mods);
    var t1 := t.(modules := AddSlots(t.modules, mods));
    forall mod, process
      ensures Get(Apply(t, op), mod, process) == Find(a'.procs, mod, process)
      ensures Separate(Apply(t, op)) && Apply(t, op).modules == t1.modules
    {
      AddAllAdds(t1, mods, names, mod, process);
      assert Get(t1, mod, process) == Get(t, mod, process);
    }
    AddAllAdds(t1, mods, names, [], []);
  }

  function Drop(a: Abs, mod: string): Abs {
    Abs(a.system, map n | n in a.modules && n != mod :: a.modules[n], map k | k in a.procs && k.0 != mod :: a.procs[k])
  }

  function DropAll(a: Abs, mods: seq<string>): Abs {
    Abs(a.system, map n | n in a.modules && n !in mods :: a.modules[n],
        map k | k in a.procs && k.0 !in mods :: a.procs[k])
  }

  lemma DropLast(a: Abs, mods: seq<string>)
    requires mods != []
    ensures DropAll(a, mods) == Drop(DropAll(a, mods[..|mods| - 1]), mods[|mods| - 1])
  {
    var n := |mods| - 1;
    assert mods == mods[..n] + [mods[n]];
  }

  lemma RemoveOneRefines(t: Tables, a: Abs, mod: string)
    requires Represents(t, a) && t.modules[0].name != mod
    ensures Represents(RemoveOne(t, mod), Drop(a, mod)) && RemoveOne(t, mod).modules[0] == t.modules[0]
  {
    RepScan(t.modules, a.modules, mod);
    forall mod', process'
      ensures Get(RemoveOne(t, mod), mod', process') == Find(Drop(a, mod).procs, mod', process')
    {
      RemoveOneRemoves(t, mod, mod', process');
    }
    RemoveOneRemoves(t, mod, [], []);
  }

  lemma {:induction false} RemoveRefines(t: Tables, a: Abs, mods: seq<string>)
    requires Represents(t, a) && t.modules[0].name !in mods
    ensures Represents(RemoveAll(t, mods), DropAll(a, mods)) && RemoveAll(t, mods).modules[0] == t.modules[0]
  {
    if mods == [] {
      assert DropAll(a, mods) == a;
    } else {
      var n := |mods| - 1;
      RemoveRefines(t, a, mods[..n]);
      RemoveOneRefines(RemoveAll(t, mods[..n]), DropAll(a, mods[..n]), mods[n]);
      DropLast(a, mods);
    }
  }

  lemma StandbyIs(t: Tables, a: Abs, mod: string)
    requires Represents(t, a)
    ensures StandbyModule(t.modules, mod) <==> mod in a.modules && a.modules[mod] == STANDBY
  {
    if mod in a.modules {
      var i :| 1 <= i < |t.modules| && t.modules[i].name == mod;
      assert t.modules[i] == Slot(mod, a.modules[mod]);
    }
  }

  lemma RepSystem(s: seq<Slot>, m: map<string, int>, state: int)
    requires Unique(s) && RepModules(s, m) && s != []
    ensures var s' := s[0 := s[0].(state := state)]; Unique(s') && RepModules(s', m)
  {
    var s' := s[0 := s[0].(state := state)];
    assert forall k :: 0 <= k < |s| ==> s'[k].name == s[k].name;
    forall n | n in m
      ensures exists i :: 1 <= i < |s'| && s'[i].name == n
    {
      var i :| 1 <= i < |s| && s[i].name == n;
      assert s'[i].name == n;
    }
  }

  lemma SetProcessRefines(t: Tables, a: Abs, op: Op) returns (a': Abs)
    requires Represents(t, a) && op.SetProcess?
    ensures Step(a, op, a') && Represents(Apply(t, op), a')
  {
    var mod, process := op.mod, op.process;
    StandbyIs(t, a, mod);
    var st := Granted(t, op.config, op.paired, mod, process, op.state);
    var t' := Apply(t, op);
    SetProcUpdates(t, op.config, op.paired, mod, process, op.state, op.pid, mod, process);
    if Accepted(t, mod, process, st) {
      RepSystem(t.modules, a.modules, st);
      var p := Get(t, mod, process).value;
      a' := Abs(if process == DML_PROC && (st == ACTIVE || st == BUSY_INIT) then st else a.system, a.modules,
                a.procs[(mod, process) := Updated(p, st, op.pid)]);
      forall mod', process'
        ensures Get(t', mod', process') == Find(a'.procs, mod', process')
      {
        SetProcUpdates(t, op.config, op.paired, mod, process, op.state, op.pid, mod', process');
      }
    } else {
      a' := a;
    }
  }

  lemma PairedRefines(t: Tables, a: Abs, config: seq<ProcConfig>, mod: string, modType: string, state: int)
    requires Represents(t, a)
    ensures var procs := Repaired(a.procs, config, mod, modType, state);
            Represents(SetPaired(t, config, mod, modType, state), a.(procs := procs))
  {
    var a' := a.(procs := Repaired(a.procs, config, mod, modType, state));
    var t' := SetPaired(t, config, mod, modType, state);
    SetPairedKeeps(t, config, mod, modType, state);
    forall mod', process'
      ensures Get(t', mod', process') == Find(a'.procs, mod', process')
    {
      SetPairedUpdates(t, config, mod, modType, state, mod', process');
    }
    SetPairedUpdates(t, config, mod, modType, state, [], []);
  }

  lemma SlotRefines(t: Tables, a: Abs, name: string, state: int)
    requires Represents(t, a)
    ensures Represents(SetSlot(t, name, state), a.(modules := Put(a.modules, name, state)))
  {
    RepSetSlot(t, a.modules, name, state);
    var t' := SetSlot(t, name, state);
    forall mod, process
      ensures Get(t', mod, process) == Find(a.procs, mod, process)
    {
      assert Get(t', mod, process) == Get(t, mod, process);
    }
  }

  lemma PromoteRefines(t: Tables, a: Abs, i: nat)
    requires Represents(t, a) && 1 <= i < |t.modules|
    ensures Represents(t.(modules := t.modules[i := t.modules[i].(state := ACTIVE)]),
                       a.(modules := a.modules[t.modules[i].name := ACTIVE]))
  {
    RepSet(t.modules, a.modules, i, ACTIVE);
    var t' := t.(modules := t.modules[i := t.modules[i].(state := ACTIVE)]);
    forall mod, process
      ensures Get(t', mod, process) == Find(a.procs, mod, process)
    {
      assert Get(t', mod, process) == Get(t, mod, process);
    }
  }

  lemma MateIs(t: Tables, a: Abs, name: string, state: int)
    requires Represents(t, a)
    ensures FirstMate(t.modules, 1, name, state).Some? <==> exists m :: MateIn(a, name, m, state)
  {
    var r := FirstMate(t.modules, 1, name, state);
    if r.None? {
      forall m
        ensures !MateIn(a, name, m, state)
      {
        if m in a.modules {
          var i :| 1 <= i < |t.modules| && t.modules[i].name == m;
        }
      }
    } else {
      assert MateIn(a, name, t.modules[r.value].name, state);
    }
  }

  lemma SetModuleRefines(t: Tables, a: Abs, op: Op) returns (a': Abs)
    requires Represents(t, a) && op.SetModuleState?
    ensures Step(a, op, a') && Represents(Apply(t, op), a')
  {
    var name, state, config := op.name, op.state, op.config;
    a' := a;
    if |name| >= TYPE_SIZE && op.paired.Some? {
      MateIs(t, a, name, ACTIVE);
      MateIs(t, a, name, STANDBY);
      var active, standby := FirstMate(t.modules, 1, name, ACTIVE), FirstMate(t.modules, 1, name, STANDBY);
      if op.paired.value && state == ACTIVE && active.Some? {
        PairedRefines(t, a, config, name, TypeOf(name), STANDBY);
        var a1 := a.(procs := Repaired(a.procs, config, name, TypeOf(name), STANDBY));
        SlotRefines(SetPaired(t, config, name, TypeOf(name), STANDBY), a1, name, STANDBY);
        a' := a1.(modules := Put(a1.modules, name, STANDBY));
      } else if op.paired.value && Demotion(state) && standby.Some? {
        var m := t.modules[standby.value].name;
        assert MateIn(a, name, m, STANDBY);
        PromoteRefines(t, a, standby.value);
        var t1 := t.(modules := t.modules[standby.value := t.modules[standby.value].(state := ACTIVE)]);
        var a1 := a.(modules := a.modules[m := ACTIVE]);
        PairedRefines(t1, a1, config, m, TypeOf(name), ACTIVE);
        var a2 := a1.(procs := Repaired(a1.procs, config, m, TypeOf(name), ACTIVE));
        SlotRefines(SetPaired(t1, config, m, TypeOf(name), ACTIVE), a2, name, state);
        a' := a2.(modules := Put(a2.modules, name, state));
      } else {
        SlotRefines(t, a, name, state);
        a' := a.(modules := Put(a.modules, name, state));
      }
    }
  }

  lemma StepRefines(t: Tables, a: Abs, op: Op) returns (a': Abs)
    requires Represents(t, a) && Legal(t, op)
    ensures Step(a, op, a') && Represents(Apply(t, op), a')
  {
    match op
    case Add(_, _) => a' := AddRefines(t, a, op);
    case Remove(mods) =>
      RemoveRefines(t, a, mods);
      a' := DropAll(a, mods);
    case SetProcess(_, _, _, _, _, _) => a' := SetProcessRefines(t, a, op);
    case SetModuleState(_, _, _, _) => a' := SetModuleRefines(t, a, op);
  }

  ghost predicate LegalRun(t: Tables, ops: seq<Op>, t': Tables)
    decreases |ops|
  {
    if ops == [] then t' == t else Legal(t, ops[0]) && LegalRun(Apply(t, ops[0]), ops[1..], t')
  }

  /** A run of the requests on the maps. */
  ghost predicate MapRun(run: seq<Abs>, ops: seq<Op>) {
    |run| == |ops| + 1 && forall i :: 0 <= i < |ops| ==> Step(run[i], ops[i], run[i + 1])
  }

  /** Over every run of adds, removes and sets the tables stand for the maps on which the
      same requests were carried out, and no two process entries share an index. */
  lemma {:induction false} RunRefines(t: Tables, a: Abs, ops: seq<Op>, t': Tables) returns (run: seq<Abs>)
    requires Represents(t, a) && LegalRun(t, ops, t')
    ensures MapRun(run, ops) && run[0] == a && Represents(t', run[|ops|]) && Separate(t')
    decreases |ops|
  {
    if ops == [] {
      run := [a];
    } else {
      var a1 := StepRefines(t, a, ops[0]);
      var rest := RunRefines(Apply(t, ops[0]), a1, ops[1..], t');
      run := [a] + rest;
      forall i | 0 <= i < |ops|
        ensures Step(run[i], ops[i], run[i + 1])
      {
        if i > 0 {
          assert run[i] == rest[i - 1] && ops[i] == ops[1..][i - 1] && run[i + 1] == rest[i];
        }
      }
    }
  }

  // ------------------------------------------------------------------ the last request wins

  /** The request leaves this process alone: it sets another one or is not taken, removes other
      modules, or sets a module of another type. */
  predicate Untouched(t: Tables, op: Op, mod: string, process: string) {
    match op
    case Add(_, _) => true
    case Remove(mods) => mod !in mods
    case SetProcess(config, paired, mod', process', state, _) =>
      !(mod' == mod && process' == process
        && Accepted(t, mod, process, Granted(t, config, paired, mod, process, state)))
    case SetModuleState(_, _, name, _) => TypeOf(name) != TypeOf(mod)
  }

  lemma SetModuleProcs(t: Tables, config: seq<ProcConfig>, paired: Option<bool>, name: string, state: int, mod: string,
                       process: string)
    requires Separate(t) && TypeOf(name) != TypeOf(mod)
    ensures Get(SetModule(t, config, paired, name, state), mod, process) == Get(t, mod, process)
  {
    SetPairedUpdates(t, config, name, TypeOf(name), STANDBY, mod, process);
    SetSlotProcs(t, name, state, mod, process);
    SetSlotProcs(SetPaired(t, config, name, TypeOf(name), STANDBY), name, STANDBY, mod, process);
    var i := FirstMate(t.modules, 1, name, STANDBY);
    if i.Some? {
      var up := t.(modules := t.modules[i.value := t.modules[i.value].(state := ACTIVE)]);
      SetPairedUpdates(up, config, t.modules[i.value].name, TypeOf(name), ACTIVE, mod, process);
      SetSlotProcs(SetPaired(up, config, t.modules[i.value].name, TypeOf(name), ACTIVE), name, state, mod, process);
    }
  }

  lemma SetSlotProcs(t: Tables, name: string, state: int, mod: string, process: string)
    ensures Get(SetSlot(t, name, state), mod, process) == Get(t, mod, process)
  {
  }

  lemma UntouchedKeeps(t: Tables, a: Abs, op: Op, mod: string, process: string)
    requires Represents(t, a) && Legal(t, op) && Untouched(t, op, mod, process) && Get(t, mod, process).Some?
    ensures Get(Apply(t, op), mod, process) == Get(t, mod, process)
  {
    match op
    case Add(mods, names) =>
      var t1 := t.(modules := AddSlots(t.modules, mods));
      AddAllAdds(t1, mods, names, mod, process);
    case Remove(mods) => RemoveRefines(t, a, mods);
    case SetProcess(config, paired, mod', process', state, pid) =>
      SetProcUpdates(t, config, paired, mod', process', state, pid, mod, process);
    case SetModuleState(config, paired, name, state) => SetModuleProcs(t, config, paired, name, state, mod, process);
  }

  ghost predicate UntouchedRun(t: Tables, ops: seq<Op>, mod: string, process: string)
    decreases |ops|
  {
    ops == [] || (Untouched(t, ops[0], mod, process) && UntouchedRun(Apply(t, ops[0]), ops[1..], mod, process))
  }

  lemma {:induction false} UntouchedStays(t: Tables, a: Abs, ops: seq<Op>, t': Tables, mod: string, process: string)
    requires Represents(t, a) && LegalRun(t, ops, t') && UntouchedRun(t, ops, mod, process)
    requires Get(t, mod, process).Some?
    ensures Get(t', mod, process) == Get(t, mod, process)
    decreases |ops|
  {
    if ops != [] {
      UntouchedKeeps(t, a, ops[0], mod, process);
      var a1 := StepRefines(t, a, ops[0]);
      UntouchedStays(Apply(t, ops[0]), a1, ops[1..], t', mod, process);
    }
  }

  /** The last request wins: after a request that is taken, and any run of requests that leave
      the process alone, a lookup gives the state then granted and the process id then given. */
  lemma LastRequestWins(t: Tables, a: Abs, op: Op, ops: seq<Op>, t': Tables)
    requires Represents(t, a) && op.SetProcess? && op.pid >= 0 && op.pid != 1
    requires var st := Granted(t, op.config, op.paired, op.mod, op.process, op.state);
             st < STATE_MAX && Accepted(t, op.mod, op.process, st)
    requires LegalRun(Apply(t, op), ops, t') && UntouchedRun(Apply(t, op), ops, op.mod, op.process)
    ensures Get(t', op.mod, op.process) ==
            Some(Proc(Granted(t, op.config, op.paired, op.mod, op.process, op.state), op.pid))
  {
    SetProcUpdates(t, op.config, op.paired, op.mod, op.process, op.state, op.pid, op.mod, op.process);
    var a1 := SetProcessRefines(t, a, op);
    UntouchedStays(Apply(t, op), a1, ops, t', op.mod, op.process);
  }

  // ------------------------------------------------------------------ one active mate, over runs

  /** The active modules of a type after a step were active before, and no module changed type. */
  ghost predicate NoNewActive(s: seq<Slot>, s': seq<Slot>, modType: string) {
    forall i :: 1 <= i < |s'| && s'[i].state == ACTIVE && TypeOf(s'[i].name) == modType ==>
      exists k :: 1 <= k < |s| && s[k] == s'[i]
  }

  lemma NoNewKeeps(s: seq<Slot>, s': seq<Slot>, modType: string)
    requires OneActive(s, modType) && NoNewActive(s, s', modType)
    ensures OneActive(s', modType)
  {
    forall i, j | 1 <= i < |s'| && 1 <= j < |s'| && TypeOf(s'[i].name) == modType && Mates(s'[i].name, s'[j].name)
      ensures !(s'[i].state == ACTIVE && s'[j].state == ACTIVE)
    {
    }
  }

  lemma ScanNoNew(s: seq<Slot>, name: string, modType: string)
    requires Unique(s) && s != [] && s[0].name != name
    ensures NoNewActive(s, Scan(s, 0, name), modType)
  {
    ScanRemoves(s, 0, name);
    ScanKeepsFirst(s, 0, name);
    var r := Scan(s, 0, name);
    forall i | 1 <= i < |r|
      ensures exists k :: 1 <= k < |s| && s[k] == r[i]
    {
      assert r[i] in r;
      var k :| 0 <= k < |s| && s[k] == r[i];
      assert r[0].name != r[i].name;
    }
  }

  lemma {:induction false} RemoveOneActive(t: Tables, mods: seq<string>, modType: string)
    requires Unique(t.modules) && t.modules != [] && t.modules[0].name !in mods && OneActive(t.modules, modType)
    ensures var s := RemoveAll(t, mods).modules; OneActive(s, modType) && Unique(s) && s != [] && s[0] == t.modules[0]
  {
    if mods != [] {
      var n := |mods| - 1;
      RemoveOneActive(t, mods[..n], modType);
      var s := RemoveAll(t, mods[..n]).modules;
      ScanRemoves(s, 0, mods[n]);
      ScanKeepsFirst(s, 0, mods[n]);
      ScanNoNew(s, mods[n], modType);
      NoNewKeeps(s, Scan(s, 0, mods[n]), modType);
    }
  }

  /** A request that can break the rule for a type: it sets a module of that type while the
      type's run type reads as not paired, or it promotes a module beside a third one. */
  predicate Careless(t: Tables, op: Op, modType: string) {
    op.SetModuleState? && TypeOf(op.name) == modType && op.paired.Some?
    && (!op.paired.value || (Demotion(op.state) && Clash(t.modules, op.name)))
  }

  lemma SetSlotOther(t: Tables, name: string, state: int, i: nat)
    requires 1 <= i < |t.modules| && t.modules[i].name != name
    ensures var s := SetSlot(t, name, state).modules; |s| == |t.modules| && s[i] == t.modules[i]
  {
  }

  lemma SetModuleOther(t: Tables, config: seq<ProcConfig>, paired: Option<bool>, name: string, state: int, i: nat)
    requires 1 <= i < |t.modules| && TypeOf(t.modules[i].name) != TypeOf(name)
    ensures var s := SetModule(t, config, paired, name, state).modules; |s| == |t.modules| && s[i] == t.modules[i]
  {
    SetSlotOther(t, name, state, i);
    SetPairedKeeps(t, config, name, TypeOf(name), STANDBY);
    SetSlotOther(SetPaired(t, config, name, TypeOf(name), STANDBY), name, STANDBY, i);
    var p := FirstMate(t.modules, 1, name, STANDBY);
    if p.Some? {
      var promoted := t.(modules := t.modules[p.value := t.modules[p.value].(state := ACTIVE)]);
      SetPairedKeeps(promoted, config, t.modules[p.value].name, TypeOf(name), ACTIVE);
      SetSlotOther(SetPaired(promoted, config, t.modules[p.value].name, TypeOf(name), ACTIVE), name, state, i);
    }
  }

  predicate SameNames(s: seq<Slot>, s': seq<Slot>) {
    |s'| == |s| && forall i :: 0 <= i < |s| ==> s'[i].name == s[i].name
  }

  lemma SetSlotNames(t: Tables, s: seq<Slot>, name: string, state: int)
    requires SameNames(s, t.modules)
    ensures SameNames(s, SetSlot(t, name, state).modules)
  {
  }

  lemma SetModuleNames(t: Tables, config: seq<ProcConfig>, paired: Option<bool>, name: string, state: int)
    ensures SameNames(t.modules, SetModule(t, config, paired, name, state).modules)
  {
    var s := t.modules;
    SetSlotNames(t, s, name, state);
    SetPairedKeeps(t, config, name, TypeOf(name), STANDBY);
    SetSlotNames(SetPaired(t, config, name, TypeOf(name), STANDBY), s, name, STANDBY);
    var p := FirstMate(s, 1, name, STANDBY);
    if p.Some? {
      var promoted := t.(modules := s[p.value := s[p.value].(state := ACTIVE)]);
      SetPairedKeeps(promoted, config, s[p.value].name, TypeOf(name), ACTIVE);
      SetSlotNames(SetPaired(promoted, config, s[p.value].name, TypeOf(name), ACTIVE), s, name, state);
    }
  }

  lemma OtherTypeActive(t: Tables, config: seq<ProcConfig>, paired: Option<bool>, name: string, state: int,
                        modType: string)
    requires OneActive(t.modules, modType) && TypeOf(name) != modType
    ensures OneActive(SetModule(t, config, paired, name, state).modules, modType)
  {
    var s' := SetModule(t, config, paired, name, state).modules;
    SetModuleNames(t, config, paired, name, state);
    forall i | 1 <= i < |s'| && TypeOf(s'[i].name) == modType
      ensures s'[i] == t.modules[i]
    {
      SetModuleOther(t, config, paired, name, state, i);
    }
    NoNewKeeps(t.modules, s', modType);
  }

  lemma AddActive(s: seq<Slot>, mods: seq<string>, modType: string)
    requires OneActive(s, modType)
    ensures OneActive(AddSlots(s, mods), modType)
  {
    var s' := AddSlots(s, mods);
    assert forall i :: |s| <= i < |s'| ==> s'[i].state == MAN_DISABLED;
    assert forall i :: 0 <= i < |s| ==> s'[i] == s[i];
  }

  lemma StepOneActive(t: Tables, a: Abs, op: Op, modType: string)
    requires Represents(t, a) && Legal(t, op) && OneActive(t.modules, modType) && !Careless(t, op, modType)
    ensures OneActive(Apply(t, op).modules, modType)
  {
    match op
    case Add(mods, names) =>
      AddActive(t.modules, mods, modType);
      AddAllAdds(t.(modules := AddSlots(t.modules, mods)), mods, names, [], []);
    case Remove(mods) => RemoveOneActive(t, mods, modType);
    case SetProcess(_, _, _, _, _, _) =>
      assert forall i :: 1 <= i < |t.modules| ==> Apply(t, op).modules[i] == t.modules[i];
    case SetModuleState(config, paired, name, state) =>
      if TypeOf(name) != modType {
        OtherTypeActive(t, config, paired, name, state, modType);
      } else if |name| >= TYPE_SIZE && paired.Some? {
        OneActiveExactly(t, config, name, state);
      }
  }

  ghost predicate CarefulRun(t: Tables, ops: seq<Op>, modType: string)
    decreases |ops|
  {
    ops == [] || (!Careless(t, ops[0], modType) && CarefulRun(Apply(t, ops[0]), ops[1..], modType))
  }

  /** Over every run without a careless request, at most one of two mates is active. */
  lemma {:induction false} RunOneActive(t: Tables, a: Abs, ops: seq<Op>, t': Tables, modType: string)
    requires Represents(t, a) && LegalRun(t, ops, t') && OneActive(t.modules, modType) && CarefulRun(t, ops, modType)
    ensures OneActive(t'.modules, modType)
    decreases |ops|
  {
    if ops != [] {
      StepOneActive(t, a, ops[0], modType);
      var a1 := StepRefines(t, a, ops[0]);
      RunOneActive(Apply(t, ops[0]), a1, ops[1..], t', modType);
    }
  }
}
