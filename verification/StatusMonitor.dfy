/** The status request handler over its shared-memory arrays, proved against the requests
    on values in StatusTables. */
module StatusMonitor {

  import opened Bytes
  import opened StatusTables

  class Monitor {
    const fShmSystemStatus: array<Slot>
    const fShmProcessStatus: array<Proc>
    var fmoduleNumber: nat
    var processNumber: nat
    var fstatusList: seq<Entry>

    ghost predicate Valid()
      reads this, fShmSystemStatus, fShmProcessStatus
    {
      && 1 <= fShmSystemStatus.Length && fmoduleNumber <= fShmSystemStatus.Length
      && processNumber <= fShmProcessStatus.Length
      && forall i :: 0 <= i < |fstatusList| ==> fstatusList[i].index < processNumber
    }

    ghost function State(): Tables
      requires Valid()
      reads this, fShmSystemStatus, fShmProcessStatus
    {
      Tables(fShmSystemStatus[..fmoduleNumber], fShmProcessStatus[..processNumber], fstatusList)
    }

    constructor (moduleCapacity: nat, processCapacity: nat, system: string, state: int)
      requires moduleCapacity >= 1
      ensures Valid() && State() == Tables([Slot(system, state)], [], [])
      ensures fShmSystemStatus.Length == moduleCapacity && fShmProcessStatus.Length == processCapacity
    {
      fShmSystemStatus := new Slot[moduleCapacity](_ => Slot(system, state));
      fShmProcessStatus := new Proc[processCapacity](_ => Proc(MAN_OFFLINE, 0));
      fmoduleNumber, processNumber, fstatusList := 1, 0, [];
    }

    method FindIndex(mod: string, process: string) returns (r: Option<nat>)
      requires Valid()
      ensures r == Lookup(fstatusList, mod, process) && (r.Some? ==> r.value < processNumber)
    {
      for k := 0 to |fstatusList|
        invariant Lookup(fstatusList[k..], mod, process) == Lookup(fstatusList, mod, process)
      {
        if fstatusList[k].process == process && fstatusList[k].mod == mod {
          return Some(fstatusList[k].index);
        }
        assert fstatusList[k..][1..] == fstatusList[k + 1..];
      }
      return None;
    }

    /** GET_PROC_STATUS. */
    method GetProcStatus(mod: string, process: string) returns (r: Option<Proc>)
      requires Valid()
      ensures r == Get(State(), mod, process)
    {
      var i := FindIndex(mod, process);
      if i.None? {
        return None;
      }
      return Some(fShmProcessStatus[i.value]);
    }

    method IsStandby(mod: string) returns (r: bool)
      requires Valid()
      ensures r <==> StandbyModule(State().modules, mod)
    {
      var i := 1;
      while i < fmoduleNumber
        invariant 1 <= i && forall k :: 1 <= k < i && k < fmoduleNumber ==> fShmSystemStatus[k] != Slot(mod, STANDBY)
      {
        if mod == fShmSystemStatus[i].name && fShmSystemStatus[i].state == STANDBY {
          assert State().modules[i] == Slot(mod, STANDBY);
          return true;
        }
        i := i + 1;
      }
      return false;
    }

    /** The state granted to a process. */
    method Grant(config: seq<ProcConfig>, paired: Option<bool>, mod: string, process: string, requested: int)
      returns (state: int)
      requires Valid()
      ensures state == Granted(State(), config, paired, mod, process, requested)
    {
      state := requested;
      if state != ACTIVE {
        return;
      }
      var modType := TypeOf(mod);
      for k := 0 to |config|
        invariant RunsActiveStandby(config[k..], modType, process) == RunsActiveStandby(config, modType, process)
      {
        if config[k].modType == modType && config[k].process == process {
          if config[k].activeStandby && paired == Some(true) {
            var standby := IsStandby(mod);
            if standby {
              state := STANDBY;
            }
          }
          return;
        }
        assert config[k..][1..] == config[k + 1..];
      }
    }

    /** SET_PROC_STATUS. */
    method SetProcStatus(config: seq<ProcConfig>, paired: Option<bool>, mod: string, process: string, requested: int,
                         pid: int)
      requires Valid()
      modifies this, fShmSystemStatus, fShmProcessStatus
      ensures Valid() && State() == SetProc(old(State()), config, paired, mod, process, requested, pid)
    {
      var i := FindIndex(mod, process);
      if i.None? {
        return;
      }
      var shmIndex := i.value;
      var state := Grant(config, paired, mod, process, requested);
      if fShmProcessStatus[shmIndex].state == ACTIVE && (state == MAN_INIT || state == AUTO_INIT) {
        return;
      }
      fShmProcessStatus[shmIndex] := Updated(fShmProcessStatus[shmIndex], state, pid);
      if process == DML_PROC && (state == ACTIVE || state == BUSY_INIT) {
        fShmSystemStatus[0] := fShmSystemStatus[0].(state := state);
      }
    }

    /** The first mate in a state. */
    method FindMate(name: string, state: int) returns (r: Option<nat>)
      requires Valid()
      ensures r == FirstMate(State().modules, 1, name, state)
    {
      ghost var modules := State().modules;
      var i := 1;
      while i < fmoduleNumber
        invariant 1 <= i && FirstMate(modules, i, name, state) == FirstMate(modules, 1, name, state)
      {
        var other := fShmSystemStatus[i].name;
        if TypeOf(name) == TypeOf(other) && IdOf(name) != IdOf(other) {
          if fShmSystemStatus[i].state == state {
            return Some(i);
          }
        }
        i := i + 1;
      }
      return None;
    }

    method SetOneProcess(mod: string, process: string, state: int)
      requires Valid()
      modifies fShmProcessStatus
      ensures Valid() && State() == SetState(old(State()), mod, process, state)
    {
      var i := FindIndex(mod, process);
      if i.Some? {
        fShmProcessStatus[i.value] := fShmProcessStatus[i.value].(state := state);
      }
    }

    /** Sets the paired processes of a module. */
    method SetPairedProcesses(config: seq<ProcConfig>, mod: string, modType: string, state: int)
      requires Valid()
      modifies fShmProcessStatus
      ensures Valid() && State() == SetPaired(old(State()), config, mod, modType, state)
    {
      ghost var t := State();
      for k := 0 to |config|
        invariant Valid() && State() == SetPaired(t, config[..k], mod, modType, state)
      {
        assert config[..k + 1][..k] == config[..k];
        if config[k].modType == modType && config[k].activeStandby {
          SetOneProcess(mod, config[k].process, state);
        }
      }
      assert config[..|config|] == config;
    }

    method SetNamed(name: string, state: int)
      requires Valid()
      modifies fShmSystemStatus
      ensures Valid() && State() == SetSlot(old(State()), name, state)
    {
      ghost var t := State();
      var i := 1;
      while i < fmoduleNumber
        invariant 1 <= i && Valid() && State() == t
        invariant FirstNamed(t.modules, i, name) == FirstNamed(t.modules, 1, name)
      {
        if name == fShmSystemStatus[i].name {
          fShmSystemStatus[i] := fShmSystemStatus[i].(state := state);
          return;
        }
        i := i + 1;
      }
    }

    /** SET_MODULE_STATUS. */
    method SetModuleStatus(config: seq<ProcConfig>, paired: Option<bool>, name: string, requested: int)
      requires Valid()
      modifies fShmSystemStatus, fShmProcessStatus
      ensures Valid() && State() == SetModule(old(State()), config, paired, name, requested)
    {
      if |name| < TYPE_SIZE || paired.None? {
        return;
      }
      var state := requested;
      if paired.value {
        if state == ACTIVE {
          var mate := FindMate(name, ACTIVE);
          if mate.Some? {
            state := STANDBY;
            SetPairedProcesses(config, name, TypeOf(name), STANDBY);
          }
        } else if Demotion(state) {
          var mate := FindMate(name, STANDBY);
          if mate.Some? {
            var i := mate.value;
            fShmSystemStatus[i] := fShmSystemStatus[i].(state := ACTIVE);
            SetPairedProcesses(config, fShmSystemStatus[i].name, TypeOf(name), ACTIVE);
          }
        }
      }
      SetNamed(name, state);
    }

    method AddSlotsFor(mods: seq<string>)
      requires Valid() && fmoduleNumber + |mods| <= fShmSystemStatus.Length
      modifies this`fmoduleNumber, fShmSystemStatus
      ensures Valid() && State() == old(State()).(modules := AddSlots(old(State()).modules, mods))
    {
      ghost var t := State();
      var n := fmoduleNumber;
      for k := 0 to |mods|
        invariant Valid() && fmoduleNumber == n + k
        invariant State() == t.(modules := AddSlots(t.modules, mods[..k]))
      {
        fShmSystemStatus[fmoduleNumber] := Slot(mods[k], MAN_DISABLED);
        fmoduleNumber := fmoduleNumber + 1;
        assert AddSlots(t.modules, mods[..k + 1]) == AddSlots(t.modules, mods[..k]) + [Slot(mods[k], MAN_DISABLED)];
      }
      assert mods[..|mods|] == mods;
    }

    /** Gives a process the next index. */
    method AddOneProcess(mod: string, process: string)
      requires Valid() && processNumber < fShmProcessStatus.Length
      modifies this`processNumber, this`fstatusList, fShmProcessStatus
      ensures Valid() && State() == AddProc(old(State()), mod, process)
      ensures processNumber == old(processNumber) + 1
    {
      fstatusList := fstatusList + [Entry(mod, process, processNumber)];
      fShmProcessStatus[processNumber] := Proc(MAN_OFFLINE, 0);
      processNumber := processNumber + 1;
    }

    /** The processes of one new module. */
    method AddProcsFor(mod: string, modType: string, config: seq<ProcConfig>, pmWithUm: bool, parentType: string)
      requires Valid()
      requires processNumber + |WantedNames(config, modType, pmWithUm, parentType)| <= fShmProcessStatus.Length
      modifies this`processNumber, this`fstatusList, fShmProcessStatus
      ensures Valid() && State() == AddProcs(old(State()), mod, WantedNames(config, modType, pmWithUm, parentType))
      ensures processNumber == old(processNumber) + |WantedNames(config, modType, pmWithUm, parentType)|
    {
      ghost var t := State();
      var n := processNumber;
      for j := 0 to |config|
        invariant Valid() && processNumber == n + |WantedNames(config[..j], modType, pmWithUm, parentType)|
        invariant State() == AddProcs(t, mod, WantedNames(config[..j], modType, pmWithUm, parentType))
      {
        assert config[..j + 1][..j] == config[..j];
        ghost var names := WantedNames(config[..j], modType, pmWithUm, parentType);
        assert names + [] == names && (names + [config[j].process])[..|names|] == names;
        WantedMonotone(config, modType, pmWithUm, parentType, j + 1);
        var wanted := Wants(config[j], modType, pmWithUm, parentType);
        if wanted {
          AddOneProcess(mod, config[j].process);
        }
      }
      assert config[..|config|] == config;
    }

    /** ADD_MODULE.  The type is that of the last module named. */
    method AddModule(mods: seq<string>, config: seq<ProcConfig>, pmWithUm: bool, parentType: string)
      requires Valid() && fmoduleNumber + |mods| <= fShmSystemStatus.Length
      requires processNumber + |mods| * |WantedNames(config, LastType(mods), pmWithUm, parentType)|
               <= fShmProcessStatus.Length
      modifies this, fShmSystemStatus, fShmProcessStatus
      ensures var names := WantedNames(config, LastType(mods), pmWithUm, parentType);
              Valid() && State() == Apply(old(State()), Add(mods, names))
    {
      var modType := LastType(mods);
      AddSlotsFor(mods);
      ghost var t, names := State(), WantedNames(config, modType, pmWithUm, parentType);
      var n := processNumber;
      for k := 0 to |mods|
        invariant Valid() && processNumber == n + k * |names|
        invariant State() == AddAllProcs(t, mods[..k], names)
      {
        assert mods[..k + 1][..k] == mods[..k];
        RoomForOne(k, |mods|, |names|);
        AddProcsFor(mods[k], modType, config, pmWithUm, parentType);
      }
      assert mods[..|mods|] == mods;
    }

    /** Takes a module out of the module table. */
    method DropModule(name: string)
      requires Valid()
      modifies this`fmoduleNumber, fShmSystemStatus
      ensures Valid() && State() == old(State()).(modules := Scan(old(State()).modules, 0, name))
    {
      ghost var t := State();
      var j := 0;
      while j < fmoduleNumber
        invariant Valid() && State() == t.(modules := State().modules)
        invariant Scan(State().modules, j, name) == Scan(t.modules, 0, name)
        decreases fmoduleNumber - j
      {
        if name == fShmSystemStatus[j].name {
          ghost var s := State().modules;
          CopyDown(j);
          fmoduleNumber := fmoduleNumber - 1;
          assert State().modules == s[j := s[|s| - 1]][..|s| - 1];
        }
        j := j + 1;
      }
    }

    /** Copies every later slot into slot j, so that the last one stays there. */
    method CopyDown(j: nat)
      requires Valid() && j < fmoduleNumber
      modifies fShmSystemStatus
      ensures Valid() && fShmSystemStatus[..] == old(fShmSystemStatus[..][j := fShmSystemStatus[fmoduleNumber - 1]])
    {
      ghost var before := fShmSystemStatus[..];
      for k := j + 1 to fmoduleNumber
        invariant Valid() && fShmSystemStatus[..] == before[j := before[k - 1]]
      {
        fShmSystemStatus[j] := fShmSystemStatus[k];
      }
    }

    method DropEntries(mod: string)
      requires Valid()
      modifies this`fstatusList
      ensures Valid() && State() == old(State()).(list := Without(old(fstatusList), mod))
    {
      var list := fstatusList;
      var kept: seq<Entry> := [];
      for k := 0 to |list|
        invariant fstatusList == list && Valid() && kept + Without(list[k..], mod) == Without(list, mod)
        invariant forall i :: 0 <= i < |kept| ==> kept[i].index < processNumber
      {
        assert list[k..][1..] == list[k + 1..];
        ghost var rest := Without(list[k + 1..], mod);
        if mod != list[k].mod {
          assert kept + ([list[k]] + rest) == kept + [list[k]] + rest;
          kept := kept + [list[k]];
        } else {
          assert [] + rest == rest;
        }
      }
      assert kept + [] == kept;
      fstatusList := kept;
    }

    /** REMOVE_MODULE: all modules first, then all their processes. */
    method RemoveModule(mods: seq<string>)
      requires Valid()
      modifies this, fShmSystemStatus
      ensures Valid() && State() == Apply(old(State()), Remove(mods))
    {
      ghost var t := State();
      for k := 0 to |mods|
        invariant Valid() && State() == t.(modules := RemoveAll(t, mods[..k]).modules)
      {
        assert mods[..k + 1][..k] == mods[..k];
        DropModule(mods[k]);
      }
      assert mods[..|mods|] == mods;
      for k := 0 to |mods|
        invariant Valid()
        invariant State() == t.(modules := RemoveAll(t, mods).modules, list := RemoveAll(t, mods[..k]).list)
      {
        assert mods[..k + 1][..k] == mods[..k];
        DropEntries(mods[k]);
      }
      RemoveKeepsProcs(t, mods);
    }
  }

  /** The type of the last module named, which ADD_MODULE takes for all of them. */
  function LastType(mods: seq<string>): string {
    if mods == [] then [] else TypeOf(mods[|mods| - 1])
  }

  /** Whether a new module of this type runs a configured process. */
  method Wants(c: ProcConfig, modType: string, pmWithUm: bool, parentType: string) returns (wanted: bool)
    ensures wanted == Wanted(c, modType, pmWithUm, parentType)
  {
    if c.bootLaunch == 0 && c.launchId == 0 {
      return false;
    }
    var borrowed := c.modType == "um" && modType == "pm" && pmWithUm;
    if c.modType == modType || borrowed || c.modType == "ChildExtOAMModule" || c.modType == "ChildOAMModule"
       || (c.modType == "ParentOAMModule" && modType == parentType) {
      return !(borrowed && (c.process == DML_PROC || c.process == DDL_PROC));
    }
    return false;
  }

  lemma RoomForOne(k: nat, n: nat, c: nat)
    requires k < n
    ensures (k + 1) * c == k * c + c <= n * c
  {
    assert n * c == (k + 1) * c + (n - k - 1) * c;
  }

  lemma {:induction false} RemoveKeepsProcs(t: Tables, mods: seq<string>)
    ensures RemoveAll(t, mods).procs == t.procs
  {
    if mods != [] {
      RemoveKeepsProcs(t, mods[..|mods| - 1]);
    }
  }
}
