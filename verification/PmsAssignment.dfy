/** Spreading the connection slots PMS1, PMS2, ... over the addresses of the performance
    modules: NIC by NIC and, within a NIC number, in the order of the module list. */
module PmsAssignment {

  import opened Bytes

  const UNASSIGNED: string := "0.0.0.0"
  const MIN_PORTS: int := 32
  const UP: int := 8
  const MAN_DISABLED: int := 14
  const AUTO_DISABLED: int := 15
  const INITIAL: int := 17

  /** A configured interface; its status is None when asking for it throws. */
  datatype Host = Host(ip: string, nic: int, status: Option<int>)

  /** A configured module; its status is None when asking for it throws. */
  datatype Module = Module(status: Option<int>, hosts: seq<Host>)

  datatype Address = Address(ip: string, nic: int)

  // ------------------------------------------------------------------ usable addresses

  predicate Enabled(m: Module) {
    m.status != Some(MAN_DISABLED) && m.status != Some(AUTO_DISABLED)
  }

  predicate Usable(h: Host) {
    h.ip != UNASSIGNED && h.status in {None, Some(UP), Some(INITIAL)}
  }

  /** The usable addresses of a module, in order. */
  function HostAddresses(hosts: seq<Host>): seq<Address> {
    if hosts == [] then []
    else
      var h := hosts[|hosts| - 1];
      HostAddresses(hosts[..|hosts| - 1]) + if Usable(h) then [Address(h.ip, h.nic)] else []
  }

  function Addresses(modules: seq<Module>): seq<Address> {
    if modules == [] then []
    else
      var m := modules[|modules| - 1];
      Addresses(modules[..|modules| - 1]) + if Enabled(m) then HostAddresses(m.hosts) else []
  }

  function EnabledCount(modules: seq<Module>): nat {
    if modules == [] then 0
    else EnabledCount(modules[..|modules| - 1]) + if Enabled(modules[|modules| - 1]) then 1 else 0
  }

  method CollectHosts(hosts: seq<Host>) returns (addrs: seq<Address>)
    ensures addrs == HostAddresses(hosts)
  {
    addrs := [];
    for k := 0 to |hosts|
      invariant addrs == HostAddresses(hosts[..k])
    {
      assert hosts[..k + 1][..k] == hosts[..k];
      if hosts[k].ip != UNASSIGNED {
        var st := hosts[k].status;
        if st.None? || st.value == UP || st.value == INITIAL {
          addrs := addrs + [Address(hosts[k].ip, hosts[k].nic)];
        }
      }
    }
    assert hosts[..|hosts|] == hosts;
  }

  method Collect(modules: seq<Module>) returns (addrs: seq<Address>, pmCount: nat)
    ensures addrs == Addresses(modules) && pmCount == EnabledCount(modules)
  {
    addrs, pmCount := [], 0;
    for k := 0 to |modules|
      invariant addrs == Addresses(modules[..k]) && pmCount == EnabledCount(modules[..k])
    {
      assert modules[..k + 1][..k] == modules[..k];
      var st := modules[k].status;
      if st.Some? && (st.value == MAN_DISABLED || st.value == AUTO_DISABLED) {
        continue;
      }
      pmCount := pmCount + 1;
      var more := CollectHosts(modules[k].hosts);
      addrs := addrs + more;
    }
    assert modules[..|modules|] == modules;
  }

  /** The addresses stand in the order of the modules and, within a module, of its interfaces;
      a module that is disabled and an interface that is unassigned or neither up nor initial
      has none.  These equations leave no other list. */
  lemma {:induction false} HostsConcat(a: seq<Host>, b: seq<Host>)
    ensures HostAddresses(a + b) == HostAddresses(a) + HostAddresses(b)
    decreases |b|
  {
    if b == [] {
      assert a + b == a;
    } else {
      var n := |b| - 1;
      assert (a + b)[..|a + b| - 1] == a + b[..n];
      HostsConcat(a, b[..n]);
    }
  }

  lemma OneHost(h: Host)
    ensures HostAddresses([h]) ==
            if h.ip == "0.0.0.0" || h.status !in {None, Some(UP), Some(INITIAL)} then [] else [Address(h.ip, h.nic)]
  {
    assert [h][..0] == [];
  }

  lemma {:induction false} ModulesConcat(a: seq<Module>, b: seq<Module>)
    ensures Addresses(a + b) == Addresses(a) + Addresses(b)
    decreases |b|
  {
    if b == [] {
      assert a + b == a;
    } else {
      var n := |b| - 1;
      assert (a + b)[..|a + b| - 1] == a + b[..n];
      ModulesConcat(a, b[..n]);
    }
  }

  lemma {:induction false} CountConcat(a: seq<Module>, b: seq<Module>)
    ensures EnabledCount(a + b) == EnabledCount(a) + EnabledCount(b)
    decreases |b|
  {
    if b == [] {
      assert a + b == a;
    } else {
      var n := |b| - 1;
      assert (a + b)[..|a + b| - 1] == a + b[..n];
      CountConcat(a, b[..n]);
    }
  }

  lemma OneModule(m: Module)
    ensures var off := m.status in {Some(MAN_DISABLED), Some(AUTO_DISABLED)};
            && Addresses([m]) == (if off then [] else HostAddresses(m.hosts))
            && EnabledCount([m]) == (if off then 0 else 1)
  {
    assert [m][..0] == [];
  }

  // ------------------------------------------------------------------ the order of use

  /** The addresses on one NIC number, in list order. */
  function OnNic(addrs: seq<Address>, nic: int): seq<string> {
    if addrs == [] then []
    else
      var a := addrs[|addrs| - 1];
      OnNic(addrs[..|addrs| - 1], nic) + if a.nic == nic then [a.ip] else []
  }

  lemma {:induction false} OnNicConcat(a: seq<Address>, b: seq<Address>, nic: int)
    ensures OnNic(a + b, nic) == OnNic(a, nic) + OnNic(b, nic)
    decreases |b|
  {
    if b == [] {
      assert a + b == a;
    } else {
      var n := |b| - 1;
      assert (a + b)[..|a + b| - 1] == a + b[..n];
      OnNicConcat(a, b[..n], nic);
    }
  }

  lemma OneOnNic(a: Address, nic: int)
    ensures OnNic([a], nic) == if a.nic == nic then [a.ip] else []
  {
    assert [a][..0] == [];
  }

  /** The addresses on NIC numbers 1 to n, ordered by NIC number and then by list order. */
  function UpTo(addrs: seq<Address>, n: nat): seq<string> {
    if n == 0 then [] else UpTo(addrs, n - 1) + OnNic(addrs, n)
  }

  /** The largest NIC number looked at; number 1 always is. */
  function Top(maxNic: int): nat {
    if maxNic < 1 then 1 else maxNic
  }

  function Ordered(addrs: seq<Address>, maxNic: int): seq<string> {
    UpTo(addrs, Top(maxNic))
  }

  /** The closed form: slot i has the address at position i modulo the number of addresses. */
  ghost predicate Cyclic(slots: seq<string>, s: seq<string>)
    requires s != []
  {
    forall k {:trigger Unseal(k)} :: Unseal(k) ==> forall i :: 0 <= i < |slots| ==> slots[i] == s[i % |s|]
  }

  lemma {:induction false} OnNicPrefix(addrs: seq<Address>, nic: int, k: nat)
    requires k <= |addrs|
    ensures OnNic(addrs[..k], nic) <= OnNic(addrs, nic)
    decreases |addrs|
  {
    if k == |addrs| {
      assert addrs[..k] == addrs;
    } else {
      OnNicPrefix(addrs[..|addrs| - 1], nic, k);
      assert addrs[..|addrs| - 1][..k] == addrs[..k];
    }
  }

  lemma {:induction false} UpToPrefix(addrs: seq<Address>, m: nat, n: nat)
    requires m <= n
    ensures UpTo(addrs, m) <= UpTo(addrs, n)
  {
    if m < n {
      UpToPrefix(addrs, m, n - 1);
    }
  }

  /** Where the addresses of one NIC number stand in the whole order. */
  lemma NicPlace(addrs: seq<Address>, nic: nat, n: nat)
    requires 1 <= nic <= n
    ensures var off := |UpTo(addrs, nic - 1)|; var piece := OnNic(addrs, nic); var s := UpTo(addrs, n);
            off + |piece| <= |s| && s[off..off + |piece|] == piece && |UpTo(addrs, nic)| == off + |piece|
  {
    UpToPrefix(addrs, nic, n);
  }

  /** A whole number of turns through n addresses. */
  ghost predicate Turns(base: nat, n: nat)
    requires n > 0
  {
    forall k {:trigger Unseal(k)} :: Unseal(k) ==> base % n == 0
  }

  lemma TurnsAt(base: nat, n: nat, j: nat)
    requires n > 0 && Turns(base, n) && j < n
    ensures (base + j) % n == j
  {
    assert Unseal(0);
    DivMod(base + j, n, base / n, j);
  }

  lemma OneMoreTurn(base: nat, n: nat)
    requires n > 0 && Turns(base, n)
    ensures Turns(base + n, n)
  {
    assert Unseal(0);
    DivMod(base + n, n, base / n + 1, 0);
  }

  /** Slots stay in the closed form when the next stretch of the order is appended. */
  lemma CyclicAppend(slots: seq<string>, s: seq<string>, base: nat, off: nat, piece: seq<string>)
    requires s != [] && Cyclic(slots, s) && Turns(base, |s|) && |slots| == base + off
    requires off + |piece| <= |s| && piece == s[off..off + |piece|]
    ensures Cyclic(slots + piece, s)
  {
    assert Unseal(0);
    var all := slots + piece;
    forall i | 0 <= i < |all|
      ensures all[i] == s[i % |s|]
    {
      if i >= |slots| {
        TurnsAt(base, |s|, off + (i - |slots|));
      }
    }
  }

  /** What the closed form says of one slot. */
  lemma SlotAddress(slots: seq<string>, s: seq<string>, i: nat)
    requires s != [] && Cyclic(slots, s) && i < |slots|
    ensures slots[i] == s[i % |s|]
  {
    assert Unseal(0);
  }

  // ------------------------------------------------------------------ the assignment

  /** One pass over the address list for one NIC number, cut off when all slots are filled. */
  method Sweep(addrs: seq<Address>, nic: int, slots: seq<string>, ports: nat) returns (r: seq<string>)
    requires |slots| < ports
    ensures exists k :: 0 <= k <= |addrs| && r == slots + OnNic(addrs[..k], nic) && (k == |addrs| || |r| == ports)
    ensures |r| <= ports
  {
    r := slots;
    assert slots + OnNic(addrs[..0], nic) == slots;
    for k := 0 to |addrs|
      invariant r == slots + OnNic(addrs[..k], nic) && |r| < ports
    {
      assert addrs[..k + 1][..k] == addrs[..k];
      if addrs[k].nic == nic {
        ghost var before := OnNic(addrs[..k], nic);
        assert slots + (before + [addrs[k].ip]) == slots + before + [addrs[k].ip];
        r := r + [addrs[k].ip];
      } else {
        assert OnNic(addrs[..k + 1], nic) == OnNic(addrs[..k], nic);
      }
      if |r| >= ports {
        return;
      }
    }
  }

  /** The NIC number of the first address in the order. */
  lemma {:induction false} FirstNic(addrs: seq<Address>, n: nat) returns (p: nat)
    requires UpTo(addrs, n) != []
    ensures 1 <= p <= n && OnNic(addrs, p) != []
  {
    if OnNic(addrs, n) != [] {
      p := n;
    } else {
      p := FirstNic(addrs, n - 1);
    }
  }

  /** How many NIC numbers come up before p does. */
  function Steps(nic: int, p: int, top: int): int {
    if nic <= p then p - nic else top - nic + 1 + p
  }

  /** The slots filled so far are in the closed form, and the next NIC number's addresses
      are the ones whose turn it is. */
  ghost predicate InTurn(addrs: seq<Address>, maxNic: int, slots: seq<string>, base: nat, nic: nat) {
    var s := Ordered(addrs, maxNic);
    && s != [] && Cyclic(slots, s) && 1 <= nic <= Top(maxNic) + 1
    && Turns(base, |s|) && |slots| == base + |UpTo(addrs, nic - 1)|
  }

  lemma SweepPlace(addrs: seq<Address>, maxNic: int, nic: nat, k: nat, slots: seq<string>, base: nat)
    requires InTurn(addrs, maxNic, slots, base, nic) && nic <= Top(maxNic) && k <= |addrs|
    ensures Cyclic(slots + OnNic(addrs[..k], nic), Ordered(addrs, maxNic))
    ensures k == |addrs| ==> InTurn(addrs, maxNic, slots + OnNic(addrs[..k], nic), base, nic + 1)
  {
    var s := Ordered(addrs, maxNic);
    var piece, off := OnNic(addrs[..k], nic), |UpTo(addrs, nic - 1)|;
    NicPlace(addrs, nic, Top(maxNic));
    OnNicPrefix(addrs, nic, k);
    var whole := OnNic(addrs, nic);
    assert piece == s[off..off + |piece|] by {
      assert s[off..off + |whole|][..|piece|] == s[off..off + |piece|];
    }
    CyclicAppend(slots, s, base, off, piece);
    if k == |addrs| {
      assert addrs[..k] == addrs;
    }
  }

  lemma FirstTurn(addrs: seq<Address>, maxNic: int)
    requires Ordered(addrs, maxNic) != []
    ensures InTurn(addrs, maxNic, [], 0, 1)
  {
  }

  lemma WrapAround(addrs: seq<Address>, maxNic: int, slots: seq<string>, base: nat)
    requires InTurn(addrs, maxNic, slots, base, Top(maxNic) + 1)
    ensures InTurn(addrs, maxNic, slots, base + |Ordered(addrs, maxNic)|, 1)
  {
    OneMoreTurn(base, |Ordered(addrs, maxNic)|);
  }

  /** A pass whose turn it is: the slots stay in the closed form, and if some are left the next
      NIC number is due. */
  method SweepInTurn(addrs: seq<Address>, maxNic: int, nic: nat, slots: seq<string>, ports: nat, ghost base: nat)
    returns (r: seq<string>)
    requires |slots| < ports && InTurn(addrs, maxNic, slots, base, nic) && nic <= Top(maxNic)
    ensures |slots| <= |r| <= ports && Cyclic(r, Ordered(addrs, maxNic))
    ensures |r| < ports ==> InTurn(addrs, maxNic, r, base, nic + 1) && |r| == |slots| + |OnNic(addrs, nic)|
  {
    r := Sweep(addrs, nic, slots, ports);
    ghost var k :| 0 <= k <= |addrs| && r == slots + OnNic(addrs[..k], nic) && (k == |addrs| || |r| == ports);
    SweepPlace(addrs, maxNic, nic, k, slots, base);
    assert addrs[..|addrs|] == addrs;
  }

  /** The nested loop.  It fills every slot, in the closed form. */
  method Assign(addrs: seq<Address>, maxNic: int, ports: nat) returns (slots: seq<string>)
    requires Ordered(addrs, maxNic) != []
    ensures |slots| == ports && Cyclic(slots, Ordered(addrs, maxNic))
  {
    slots := [];
    var nic: nat := 1;
    ghost var base: nat := 0;
    ghost var p := FirstNic(addrs, Top(maxNic));
    FirstTurn(addrs, maxNic);
    while |slots| < ports
      invariant |slots| <= ports && 1 <= nic <= Top(maxNic) && Cyclic(slots, Ordered(addrs, maxNic))
      invariant |slots| < ports ==> InTurn(addrs, maxNic, slots, base, nic)
      decreases ports - |slots|, Steps(nic, p, Top(maxNic))
    {
      slots := SweepInTurn(addrs, maxNic, nic, slots, ports, base);
      if |slots| >= ports {
        break;
      }
      nic := nic + 1;
      if nic > maxNic {
        WrapAround(addrs, maxNic, slots, base);
        nic := 1;
        base := base + |Ordered(addrs, maxNic)|;
      }
    }
  }

  // ------------------------------------------------------------------ when it ends

  /** The state after n passes, were the loop to go on that long without filling a slot. */
  function Passes(addrs: seq<Address>, maxNic: int, n: nat): (nat, seq<string>) {
    if n == 0 then (1, [])
    else
      var (nic, slots) := Passes(addrs, maxNic, n - 1);
      (if nic + 1 > maxNic then 1 else nic + 1, slots + OnNic(addrs, nic))
  }

  /** Without an address on a NIC number that is looked at, no pass ever fills a slot, so
      the loop does not end; with one, Assign ends. */
  lemma {:induction false} NeverFills(addrs: seq<Address>, maxNic: int, n: nat)
    requires Ordered(addrs, maxNic) == []
    ensures Passes(addrs, maxNic, n).1 == [] && 1 <= Passes(addrs, maxNic, n).0 <= Top(maxNic)
  {
    if n > 0 {
      NeverFills(addrs, maxNic, n - 1);
      var nic := Passes(addrs, maxNic, n - 1).0;
      NicPlace(addrs, nic, Top(maxNic));
    }
  }

  predicate SomeOnNic(addrs: seq<Address>, nic: int) {
    exists k :: 0 <= k < |addrs| && addrs[k].nic == nic
  }

  lemma OnNicLast(addrs: seq<Address>, nic: int)
    requires addrs != []
    ensures var n := |addrs| - 1; SomeOnNic(addrs, nic) <==> SomeOnNic(addrs[..n], nic) || addrs[n].nic == nic
  {
    var front := addrs[..|addrs| - 1];
    if k :| 0 <= k < |addrs| && addrs[k].nic == nic {
      assert k < |front| ==> front[k].nic == nic;
    }
    if k :| 0 <= k < |front| && front[k].nic == nic {
      assert addrs[k].nic == nic;
    }
  }

  lemma {:induction false} OnNicSome(addrs: seq<Address>, nic: int)
    ensures OnNic(addrs, nic) != [] <==> SomeOnNic(addrs, nic)
  {
    if addrs != [] {
      OnNicSome(addrs[..|addrs| - 1], nic);
      OnNicLast(addrs, nic);
    }
  }

  lemma {:induction false} UpToSome(addrs: seq<Address>, n: nat)
    ensures UpTo(addrs, n) != [] <==> exists k :: 0 <= k < |addrs| && 1 <= addrs[k].nic <= n
  {
    if n > 0 {
      UpToSome(addrs, n - 1);
      OnNicSome(addrs, n);
    }
  }

  /** The loop ends exactly when some usable address has a NIC number from 1 to the maximum. */
  lemma EndsExactly(addrs: seq<Address>, maxNic: int)
    ensures Ordered(addrs, maxNic) != [] <==> exists k :: 0 <= k < |addrs| && 1 <= addrs[k].nic <= Top(maxNic)
    ensures Ordered(addrs, maxNic) == [] ==> forall n: nat :: Passes(addrs, maxNic, n).1 == []
  {
    UpToSome(addrs, Top(maxNic));
    if Ordered(addrs, maxNic) == [] {
      forall n: nat
        ensures Passes(addrs, maxNic, n).1 == []
      {
        NeverFills(addrs, maxNic, n);
      }
    }
  }

  /** One module with a usable address, on NIC 3 when two are looked at: no number of passes
      fills a slot. */
  lemma LoopGoesOn()
    ensures var modules := [Module(Some(UP), [Host("10.0.0.1", 3, Some(UP))])];
            Addresses(modules) == [Address("10.0.0.1", 3)] && EnabledCount(modules) == 1
            && forall n: nat :: Passes(Addresses(modules), 2, n).1 == []
  {
    var hosts := [Host("10.0.0.1", 3, Some(UP))];
    var modules := [Module(Some(UP), hosts)];
    assert hosts[..0] == [] && modules[..0] == [];
    assert "10.0.0.1"[0] != UNASSIGNED[0];
    assert HostAddresses(hosts) == [] + [Address("10.0.0.1", 3)];
    assert Addresses(modules) == [] + HostAddresses(hosts);
    EndsExactly(Addresses(modules), 2);
  }

  // ------------------------------------------------------------------ balance

  /** How many of the first `ports` slots have the address at position j of n. */
  function Uses(ports: nat, n: nat, j: nat): nat
    requires n > 0
  {
    if ports == 0 then 0 else Uses(ports - 1, n, j) + if (ports - 1) % n == j then 1 else 0
  }

  lemma NextDivMod(x: nat, n: nat)
    requires n > 0
    ensures (x + 1) / n == x / n + (if x % n + 1 == n then 1 else 0)
    ensures (x + 1) % n == if x % n + 1 == n then 0 else x % n + 1
  {
    var q, r := x / n, x % n;
    assert x == q * n + r;
    if r + 1 == n {
      assert (q + 1) * n == q * n + n;
      DivMod(x + 1, n, q + 1, 0);
    } else {
      DivMod(x + 1, n, q, r + 1);
    }
  }

  /** Every position is used equally often, but for one more use of the first ones. */
  lemma {:induction false} UsesBalanced(ports: nat, n: nat, j: nat)
    requires n > 0 && j < n
    ensures Uses(ports, n, j) == ports / n + if j < ports % n then 1 else 0
  {
    if ports == 0 {
      DivMod(0, n, 0, 0);
    } else {
      UsesBalanced(ports - 1, n, j);
      NextDivMod(ports - 1, n);
    }
  }

  /** So the numbers of uses of any two positions differ by at most one. */
  lemma FairShare(ports: nat, n: nat, j: nat, k: nat)
    requires n > 0 && j < n && k < n
    ensures -1 <= Uses(ports, n, j) - Uses(ports, n, k) <= 1
  {
    UsesBalanced(ports, n, j);
    UsesBalanced(ports, n, k);
  }

  // ------------------------------------------------------------------ updatePMSconfig

  function Ports(pmCount: nat, maxNic: int): int {
    if pmCount * (maxNic * 2) < MIN_PORTS then MIN_PORTS else pmCount * (maxNic * 2)
  }

  /** Two slots for every NIC of every module, and 32 at least. */
  lemma PortsAre(pmCount: nat, maxNic: int)
    ensures var wanted := 2 * maxNic * pmCount; Ports(pmCount, maxNic) == if wanted < 32 then 32 else wanted
  {
    assert pmCount * (maxNic * 2) == 2 * maxNic * pmCount;
  }

  /** There is nothing to update: the slots are set up or there is a single module and only
      a check was asked for, or there is no usable address or no enabled module. */
  predicate NothingToDo(check: bool, first: string, moduleCount: int, modules: seq<Module>) {
    || (check && (first != UNASSIGNED || moduleCount <= 1))
    || Addresses(modules) == [] || EnabledCount(modules) == 0
  }

  /** The new count of primitive servers and the slots, or nothing.  The addresses must
      include one on a NIC number that is looked at: without one the loop does not end. */
  method UpdatePmsConfig(check: bool, first: string, moduleCount: int, modules: seq<Module>, maxNic: int)
    returns (update: Option<(nat, seq<string>)>)
    requires NothingToDo(check, first, moduleCount, modules) || Ordered(Addresses(modules), maxNic) != []
    ensures update.None? <==>
            || (check && (first != "0.0.0.0" || moduleCount <= 1))
            || Addresses(modules) == [] || EnabledCount(modules) == 0
    ensures update.Some? ==>
              var (s, wanted) := (Ordered(Addresses(modules), maxNic), 2 * maxNic * EnabledCount(modules));
              && update.value.0 == EnabledCount(modules) && s != []
              && |update.value.1| == (if wanted < 32 then 32 else wanted)
              && forall i :: 0 <= i < |update.value.1| ==> update.value.1[i] == s[i % |s|]
  {
    if first != UNASSIGNED && check {
      return None;
    }
    if moduleCount <= 1 && check {
      return None;
    }
    var addrs, pmCount := Collect(modules);
    if addrs == [] || pmCount == 0 {
      return None;
    }
    var ports := Ports(pmCount, maxNic);
    PortsAre(pmCount, maxNic);
    var slots := Assign(addrs, maxNic, ports);
    forall i | 0 <= i < |slots|
      ensures slots[i] == Ordered(addrs, maxNic)[i % |Ordered(addrs, maxNic)|]
    {
      SlotAddress(slots, Ordered(addrs, maxNic), i);
    }
    return Some((pmCount, slots));
  }
}
