/**
 Global sensor handles of sensors/multihal.cpp: how the list initialisation numbers the sensors of
 all sub-HALs, how commands are routed by global handle, and how events are remapped back.
 */
module MultiHalHandles {
  import opened Sequences

  /** A sensor, identified by its module's index and the handle that module gave it. */
  datatype FullHandle = FullHandle(moduleIndex: int, localHandle: int)

  datatype Kind = TiltDetector | Proximity | OtherKind(number: int)

  datatype Flags = WakeUpOnChange | OtherFlags(bits: int)

  /** `description` stands for every field of sensor_t that the list initialisation leaves alone. */
  datatype Sensor = Sensor(
    handle: int,
    kind: Kind,
    flags: Flags,
    maxRange: real,
    fifoReservedEventCount: int,
    fifoMaxEventCount: int,
    description: int)

  /** fix_sensor_fields. */
  function FixFields(s: Sensor): Sensor {
    var noFifo := s.(fifoReservedEventCount := 0, fifoMaxEventCount := 0);
    match s.kind
    case TiltDetector => noFifo.(flags := WakeUpOnChange)
    case Proximity => noFifo.(flags := WakeUpOnChange, maxRange := 5.0)
    case OtherKind(_) => noFifo
  }

  datatype Event =
    | Reading(sensor: int, payload: int)
    | MetaData(sensor: int, metaSensor: int, payload: int)

  datatype Tables = Tables(
    globalToFull: map<int, FullHandle>,
    fullToGlobal: map<FullHandle, int>,
    nextGlobalHandle: int)
  {
    function Assign(f: FullHandle): Tables {
      Tables(globalToFull[nextGlobalHandle := f], fullToGlobal[f := nextGlobalHandle], nextGlobalHandle + 1)
    }

    function LocalHandle(g: int): int {
      if g in globalToFull then globalToFull[g].localHandle else -1
    }

    function ModuleIndex(g: int): int {
      if g in globalToFull then globalToFull[g].moduleIndex else -1
    }

    function GlobalHandle(f: FullHandle): int {
      if f in fullToGlobal then fullToGlobal[f] else -1
    }

    /** An event of sub-HAL `sub`, with its local handle made global. */
    function Remap(sub: int, e: Event): Event {
      match e
      case Reading(sensor, payload) => Reading(GlobalHandle(FullHandle(sub, sensor)), payload)
      case MetaData(sensor, inner, payload) => MetaData(sensor, GlobalHandle(FullHandle(sub, inner)), payload)
    }

    /** The tables left by numbering `origins` from 1 upwards; a repeated origin keeps its last number. */
    ghost predicate Describes(origins: seq<FullHandle>) {
      nextGlobalHandle == |origins| + 1 && Numbers(origins) && Inverts(origins)
    }

    ghost predicate Numbers(origins: seq<FullHandle>) {
      && (forall g :: g in globalToFull <==> 1 <= g <= |origins|)
      && (forall g :: 1 <= g <= |origins| ==> globalToFull[g] == origins[g - 1])
    }

    ghost predicate Inverts(origins: seq<FullHandle>) {
      && (forall f :: f in fullToGlobal <==> f in origins)
      && (forall f :: f in fullToGlobal ==> 1 <= fullToGlobal[f] <= |origins|)
      && (forall f :: f in fullToGlobal ==> origins[fullToGlobal[f] - 1] == f)
      && (forall f, i :: f in fullToGlobal && fullToGlobal[f] <= i < |origins| ==> origins[i] != f)
    }
  }

  const NO_TABLES := Tables(map[], map[], 1)

  function ModuleOrigins(moduleIndex: nat, sensors: seq<Sensor>): seq<FullHandle> {
    seq(|sensors|, i requires 0 <= i < |sensors| => FullHandle(moduleIndex, sensors[i].handle))
  }

  /** The full handles of all sensors, module by module, each module in its own order. */
  function Origins(modules: seq<seq<Sensor>>): seq<FullHandle> {
    if modules == [] then []
    else
      var m := |modules| - 1;
      Origins(modules[..m]) + ModuleOrigins(m, modules[m])
  }

  function AllSensors(modules: seq<seq<Sensor>>): seq<Sensor> {
    if modules == [] then []
    else
      var m := |modules| - 1;
      AllSensors(modules[..m]) + modules[m]
  }

  /** How many sensors the modules before module m have. */
  function CountBefore(modules: seq<seq<Sensor>>, m: nat): nat
    requires m <= |modules|
  {
    if m == 0 then 0 else CountBefore(modules, m - 1) + |modules[m - 1]|
  }

  lemma {:induction false} CountBeforePrefix(modules: seq<seq<Sensor>>, n: nat, m: nat)
    requires m <= n <= |modules|
    ensures CountBefore(modules[..n], m) == CountBefore(modules, m)
  {
    if m > 0 {
      CountBeforePrefix(modules, n, m - 1);
    }
  }

  lemma {:induction false} ListingLength(modules: seq<seq<Sensor>>)
    ensures |AllSensors(modules)| == |Origins(modules)| == CountBefore(modules, |modules|)
  {
    if modules != [] {
      var n := |modules| - 1;
      ListingLength(modules[..n]);
      CountBeforePrefix(modules, n, n);
    }
  }

  /** Where sensor i of module m is in the listing. */
  lemma {:induction false} ListingAt(modules: seq<seq<Sensor>>, m: nat, i: nat)
    requires m < |modules| && i < |modules[m]|
    ensures var p := CountBefore(modules, m) + i;
            && p < |AllSensors(modules)| == |Origins(modules)|
            && AllSensors(modules)[p] == modules[m][i] && Origins(modules)[p] == FullHandle(m, modules[m][i].handle)
  {
    var n := |modules| - 1;
    ListingLength(modules);
    ListingLength(modules[..n]);
    CountBeforePrefix(modules, n, m);
    if m < n {
      ListingAt(modules[..n], m, i);
    }
  }

  /** Every position of the listing is some module's sensor. */
  lemma {:induction false} ListingIsSomeSensor(modules: seq<seq<Sensor>>, p: nat) returns (m: nat, i: nat)
    requires p < CountBefore(modules, |modules|)
    ensures m < |modules| && i < |modules[m]| && p == CountBefore(modules, m) + i
  {
    var n := |modules| - 1;
    CountBeforePrefix(modules, n, n);
    if p < CountBefore(modules, n) {
      m, i := ListingIsSomeSensor(modules[..n], p);
      CountBeforePrefix(modules, n, m);
    } else {
      m, i := n, p - CountBefore(modules, n);
    }
  }

  lemma AssignExtends(t: Tables, origins: seq<FullHandle>, f: FullHandle)
    requires t.Describes(origins)
    ensures t.Assign(f).Describes(origins + [f])
  {
    hide Tables.Inverts;
    AssignInverts(t, origins, f);
  }

  lemma AssignInverts(t: Tables, origins: seq<FullHandle>, f: FullHandle)
    requires t.Inverts(origins) && t.nextGlobalHandle == |origins| + 1
    ensures t.Assign(f).Inverts(origins + [f])
  {
    var u, more := t.Assign(f), origins + [f];
    forall h ensures h in u.fullToGlobal <==> h in more {
      assert more[|origins|] == f;
    }
  }

  lemma ModuleOriginsSnoc(m: nat, sensors: seq<Sensor>, i: nat, base: seq<FullHandle>, prior: seq<Sensor>)
    requires i < |sensors|
    ensures base + ModuleOrigins(m, sensors[..i]) + [FullHandle(m, sensors[i].handle)]
         == base + ModuleOrigins(m, sensors[..i + 1])
    ensures prior + sensors[..i] + [sensors[i]] == prior + sensors[..i + 1]
  {
    assert sensors[..i + 1] == sensors[..i] + [sensors[i]];
  }

  /** The process-wide tables and the list handed to the framework, filled once. */
  class SensorRegistry {
    var tables: Tables
    var list: seq<Sensor>
    var initialised: bool

    constructor ()
      ensures !initialised && tables == NO_TABLES && list == []
    {
      tables, list, initialised := NO_TABLES, [], false;
    }

    method AssignGlobalHandle(moduleIndex: int, localHandle: int) returns (g: int)
      modifies this`tables
      ensures g == old(tables).nextGlobalHandle
      ensures tables == old(tables).Assign(FullHandle(moduleIndex, localHandle))
    {
      g := tables.nextGlobalHandle;
      var full := FullHandle(moduleIndex, localHandle);
      tables := Tables(tables.globalToFull[g := full], tables.fullToGlobal[full := g], g + 1);
    }

    /** `list` holds exactly the given sensors, fixed up, with handles 1, 2, 3, ... */
    ghost predicate Lists(sensors: seq<Sensor>)
      reads this`list
    {
      && |list| == |sensors|
      && forall k :: 0 <= k < |list| ==> list[k] == FixFields(sensors[k].(handle := k + 1))
    }

    /** Sensor i of module m is listed, fixed up, under the number of sensors before it plus one, and that
        handle routes to the module and to the sensor's own handle. */
    ghost predicate Registers(modules: seq<seq<Sensor>>)
      reads this`list, this`tables
    {
      && |list| == CountBefore(modules, |modules|)
      && forall m, i :: 0 <= m < |modules| && 0 <= i < |modules[m]| ==> RegisteredAt(modules[m][i], m, CountBefore(modules, m) + i + 1)
    }

    ghost predicate RegisteredAt(sensor: Sensor, m: nat, g: nat)
      reads this`list, this`tables
    {
      && 1 <= g <= |list| && list[g - 1] == FixFields(sensor.(handle := g))
      && tables.ModuleIndex(g) == m && tables.LocalHandle(g) == sensor.handle
    }

    /** Copies one sensor under a new global handle. */
    method AddSensor(moduleIndex: nat, sensor: Sensor, ghost base: seq<FullHandle>, ghost prior: seq<Sensor>)
      requires tables.Describes(base) && Lists(prior) && |base| == |prior|
      modifies this`tables, this`list
      ensures tables.Describes(base + [FullHandle(moduleIndex, sensor.handle)]) && Lists(prior + [sensor])
    {
      hide Tables.Numbers, Tables.Inverts, FixFields;
      AssignExtends(tables, base, FullHandle(moduleIndex, sensor.handle));
      var g := AssignGlobalHandle(moduleIndex, sensor.handle);
      list := list + [FixFields(sensor.(handle := g))];
    }

    /** Copies one module's sensors, each under a new global handle. */
    method AddModule(moduleIndex: nat, sensors: seq<Sensor>, ghost base: seq<FullHandle>, ghost prior: seq<Sensor>)
      requires tables.Describes(base) && Lists(prior) && |base| == |prior|
      modifies this`tables, this`list
      ensures tables.Describes(base + ModuleOrigins(moduleIndex, sensors))
      ensures Lists(prior + sensors)
    {
      hide Tables.Describes, FixFields;
      assert base + ModuleOrigins(moduleIndex, sensors[..0]) == base;
      for i := 0 to |sensors|
        invariant tables.Describes(base + ModuleOrigins(moduleIndex, sensors[..i]))
        invariant Lists(prior + sensors[..i])
      {
        ghost var (origins, done) := (base + ModuleOrigins(moduleIndex, sensors[..i]), prior + sensors[..i]);
        AddSensor(moduleIndex, sensors[i], origins, done);
        ModuleOriginsSnoc(moduleIndex, sensors, i, base, prior);
      }
      assert sensors[..|sensors|] == sensors;
    }

    /** After initialisation the handles are 1..n in list order and the tables describe that order;
        a second call changes nothing. */
    method LazyInitSensorsList(modules: seq<seq<Sensor>>)
      requires !initialised ==> tables == NO_TABLES && list == []
      modifies this
      ensures initialised
      ensures old(initialised) ==> tables == old(tables) && list == old(list)
      ensures !old(initialised) ==> tables.Describes(Origins(modules)) && Lists(AllSensors(modules))
      ensures !old(initialised) ==> Registers(modules)
    {
      if initialised {
        return;
      }
      for moduleIndex := 0 to |modules|
        invariant tables.Describes(Origins(modules[..moduleIndex]))
        invariant Lists(AllSensors(modules[..moduleIndex]))
        invariant |AllSensors(modules[..moduleIndex])| == |Origins(modules[..moduleIndex])|
      {
        AddModule(moduleIndex, modules[moduleIndex], Origins(modules[..moduleIndex]), AllSensors(modules[..moduleIndex]));
        assert modules[..moduleIndex + 1][..moduleIndex] == modules[..moduleIndex];
      }
      assert modules[..|modules|] == modules;
      initialised := true;
      ListingRegisters(modules);
    }

    lemma ListingRegisters(modules: seq<seq<Sensor>>)
      requires tables.Describes(Origins(modules)) && Lists(AllSensors(modules))
      ensures Registers(modules)
    {
      hide FixFields;
      ListingLength(modules);
      forall m, i | 0 <= m < |modules| && 0 <= i < |modules[m]|
        ensures RegisteredAt(modules[m][i], m, CountBefore(modules, m) + i + 1)
      {
        ListingAt(modules, m, i);
        RoutingFindsOrigin(tables, Origins(modules), CountBefore(modules, m) + i + 1);
      }
    }
  }

  /** Fixing up keeps what identifies a sensor, takes away its event buffer, makes tilt and proximity
      sensors wake the device on change, gives proximity its range, and done twice it does no more. */
  lemma FixFieldsMeans(s: Sensor)
    ensures var f := FixFields(s);
            && f.handle == s.handle && f.kind == s.kind && f.description == s.description
            && f.fifoReservedEventCount == 0 && f.fifoMaxEventCount == 0
            && (s.kind.TiltDetector? || s.kind.Proximity? ==> f.flags == WakeUpOnChange)
            && (s.kind.Proximity? ==> f.maxRange == 5.0)
            && (s.kind.TiltDetector? ==> f.maxRange == s.maxRange)
            && (s.kind.OtherKind? ==> f.flags == s.flags && f.maxRange == s.maxRange)
            && FixFields(f) == f
  {
  }

  /** Every listed global handle routes to the module and local handle it was made from; any other
      handle routes nowhere. */
  lemma RoutingFindsOrigin(t: Tables, origins: seq<FullHandle>, g: int)
    requires t.Describes(origins)
    ensures 1 <= g <= |origins| ==>
              FullHandle(t.ModuleIndex(g), t.LocalHandle(g)) == origins[g - 1]
    ensures !(1 <= g <= |origins|) ==> t.ModuleIndex(g) == -1 && t.LocalHandle(g) == -1
  {
  }

  /** Remapping a known full handle and routing the result returns to it; unknown ones give -1. */
  lemma RemapThenRoute(t: Tables, origins: seq<FullHandle>, f: FullHandle)
    requires t.Describes(origins)
    ensures f in origins ==>
              && 1 <= t.GlobalHandle(f) <= |origins|
              && FullHandle(t.ModuleIndex(t.GlobalHandle(f)), t.LocalHandle(t.GlobalHandle(f))) == f
    ensures f !in origins ==> t.GlobalHandle(f) == -1
  {
  }

  ghost predicate RemapInvertsRouting(t: Tables, n: nat) {
    forall g :: 1 <= g <= n ==> t.GlobalHandle(FullHandle(t.ModuleIndex(g), t.LocalHandle(g))) == g
  }

  /** Event remapping is the exact inverse of command routing if and only if no two sensors of the
      same module share a local handle. */
  lemma RemapInvertsRoutingIffDistinct(t: Tables, origins: seq<FullHandle>)
    requires t.Describes(origins)
    ensures RemapInvertsRouting(t, |origins|) <==> Distinct(origins)
  {
    if Distinct(origins) {
      forall g | 1 <= g <= |origins|
        ensures t.GlobalHandle(FullHandle(t.ModuleIndex(g), t.LocalHandle(g))) == g
      {
        var f := origins[g - 1];
        assert f in t.fullToGlobal;
      }
    }
    if RemapInvertsRouting(t, |origins|) {
      forall i, j | 0 <= i < j < |origins| ensures origins[i] != origins[j] {
        var gi, gj := i + 1, j + 1;
        assert t.GlobalHandle(FullHandle(t.ModuleIndex(gi), t.LocalHandle(gi))) == gi;
        assert t.GlobalHandle(FullHandle(t.ModuleIndex(gj), t.LocalHandle(gj))) == gj;
      }
    }
  }

  /** The handle an event speaks about: its own sensor, or the nested one of a meta-data event. */
  function SubjectHandle(e: Event): int {
    if e.Reading? then e.sensor else e.metaSensor
  }

  /** Remapping changes only the subject handle: to the global handle that routes back to this
      sub-HAL's sensor, or to -1 when the sensor is not registered. */
  lemma RemapNamesSource(t: Tables, origins: seq<FullHandle>, sub: int, e: Event)
    requires t.Describes(origins)
    ensures var (r, f) := (t.Remap(sub, e), FullHandle(sub, SubjectHandle(e)));
            && (r.Reading? <==> e.Reading?) && r.payload == e.payload
            && (e.MetaData? ==> r.sensor == e.sensor)
            && (f in origins ==> FullHandle(t.ModuleIndex(SubjectHandle(r)), t.LocalHandle(SubjectHandle(r))) == f)
            && (SubjectHandle(r) == -1 <==> f !in origins)
  {
    RemapThenRoute(t, origins, FullHandle(sub, SubjectHandle(e)));
  }

  /** An event is discarded after remapping exactly when it is a reading from an unregistered sensor
      or a meta-data event whose own sensor field was already -1. */
  lemma DroppedIff(t: Tables, origins: seq<FullHandle>, sub: int, e: Event)
    requires t.Describes(origins)
    ensures t.Remap(sub, e).sensor == -1 <==>
            if e.Reading? then FullHandle(sub, e.sensor) !in origins else e.sensor == -1
  {
    RemapNamesSource(t, origins, sub, e);
  }

  /** The modules whose open succeeded, in order: device k belongs to module `Devices(opens)[k]`. */
  function Devices(opens: seq<bool>): seq<nat> {
    if opens == [] then []
    else
      var m := |opens| - 1;
      Devices(opens[..m]) + if opens[m] then [m] else []
  }

  lemma {:induction false} DevicesRange(opens: seq<bool>)
    ensures |Devices(opens)| <= |opens|
    ensures forall k :: 0 <= k < |Devices(opens)| ==> k <= Devices(opens)[k] < |opens|
  {
    if opens != [] {
      DevicesRange(opens[..|opens| - 1]);
    }
  }

  /** The devices are exactly the opened modules, in ascending order. */
  lemma {:induction false} DevicesAreOpened(opens: seq<bool>)
    ensures forall m: nat :: m in Devices(opens) <==> m < |opens| && opens[m]
    ensures forall i, j :: 0 <= i < j < |Devices(opens)| ==> Devices(opens)[i] < Devices(opens)[j]
  {
    if opens != [] {
      DevicesRange(opens[..|opens| - 1]);
      DevicesAreOpened(opens[..|opens| - 1]);
    }
  }

  lemma {:induction false} DevicesOfOpenPrefix(opens: seq<bool>, n: nat)
    requires n <= |opens| && forall j :: 0 <= j < n ==> opens[j]
    ensures n <= |Devices(opens)| && forall k :: 0 <= k < n ==> Devices(opens)[k] == k
  {
    if opens != [] {
      var m := |opens| - 1;
      DevicesRange(opens[..m]);
      DevicesOfOpenPrefix(opens[..m], if n <= m then n else m);
    }
  }

  lemma {:induction false} UnshiftedDeviceWasOpened(opens: seq<bool>, k: nat)
    requires k < |Devices(opens)| && Devices(opens)[k] == k
    ensures k < |opens| && forall j :: 0 <= j <= k ==> opens[j]
  {
    DevicesRange(opens);
    var m := |opens| - 1;
    var fewer := opens[..m];
    DevicesRange(fewer);
    assert forall j :: 0 <= j < m ==> opens[j] == fewer[j];
    if k < |Devices(fewer)| {
      UnshiftedDeviceWasOpened(fewer, k);
    } else if k > 0 {
      assert k == |Devices(fewer)| && opens[m] && k == m;
      assert k - 1 <= Devices(fewer)[k - 1] < m;
      UnshiftedDeviceWasOpened(fewer, k - 1);
    }
  }

  /** Device k belongs to module k if and only if every module up to k was opened. */
  lemma DeviceUnshiftedIff(opens: seq<bool>, m: nat)
    requires m < |opens|
    ensures (m < |Devices(opens)| && Devices(opens)[m] == m) <==> forall j :: 0 <= j <= m ==> opens[j]
  {
    if forall j :: 0 <= j <= m ==> opens[j] {
      DevicesOfOpenPrefix(opens, m + 1);
    }
    if m < |Devices(opens)| && Devices(opens)[m] == m {
      UnshiftedDeviceWasOpened(opens, m);
    }
  }

  /** The module whose device a command for this global handle goes to (get_v0_device_by_handle). */
  function CommandTarget(t: Tables, opens: seq<bool>, g: int): Option<nat> {
    var k := t.ModuleIndex(g);
    if k < 0 || k >= |Devices(opens)| then None else Some(Devices(opens)[k])
  }

  lemma {:induction false} OriginsAreModules(modules: seq<seq<Sensor>>, f: FullHandle)
    ensures f in Origins(modules) <==>
            && 0 <= f.moduleIndex < |modules|
            && exists i :: 0 <= i < |modules[f.moduleIndex]| && modules[f.moduleIndex][i].handle == f.localHandle
  {
    if modules != [] {
      var m := |modules| - 1;
      OriginsAreModules(modules[..m], f);
      var last := ModuleOrigins(m, modules[m]);
      assert f in last <==> f.moduleIndex == m && exists i :: 0 <= i < |modules[m]| && modules[m][i].handle == f.localHandle by {
        if f in last {
          var i :| 0 <= i < |last| && last[i] == f;
          assert modules[m][i].handle == f.localHandle;
        }
        if i :| f.moduleIndex == m && 0 <= i < |modules[m]| && modules[m][i].handle == f.localHandle {
          assert last[i] == f;
        }
      }
    }
  }

  /** A skipped open shifts the devices. A command for a listed sensor reaches the sensor's module if and
      only if every module up to that one was opened; a handle that is not listed reaches none. */
  lemma CommandReachesModuleIff(t: Tables, modules: seq<seq<Sensor>>, opens: seq<bool>, g: int)
    requires t.Describes(Origins(modules)) && |opens| == |modules|
    ensures var origins := Origins(modules);
            if 1 <= g <= |origins|
            then var m := origins[g - 1].moduleIndex;
                 && 0 <= m < |modules|
                 && (CommandTarget(t, opens, g) == Some(m) <==> forall j :: 0 <= j <= m ==> opens[j])
            else CommandTarget(t, opens, g).None?
  {
    var origins := Origins(modules);
    RoutingFindsOrigin(t, origins, g);
    if 1 <= g <= |origins| {
      OriginsAreModules(modules, origins[g - 1]);
      DeviceUnshiftedIff(opens, origins[g - 1].moduleIndex);
    }
  }

  /** The event side of the shift: poll remaps with the queue's index. A reading of any sensor of the
      module behind queue k is attributed to that module if and only if every module up to it was
      opened; else it is dropped or taken for a reading of module k. */
  lemma EventNamesModuleIff(t: Tables, modules: seq<seq<Sensor>>, opens: seq<bool>, k: nat, i: nat, payload: int)
    requires t.Describes(Origins(modules)) && |opens| == |modules| && k < |Devices(opens)|
    requires Devices(opens)[k] < |modules| && i < |modules[Devices(opens)[k]]|
    ensures var m := Devices(opens)[k];
            var g := t.Remap(k, Reading(modules[m][i].handle, payload)).sensor;
            && (t.ModuleIndex(g) == m <==> forall j :: 0 <= j <= m ==> opens[j])
            && (t.ModuleIndex(g) == m ==> t.LocalHandle(g) == modules[m][i].handle)
            && (t.ModuleIndex(g) != m ==> g == -1 || t.ModuleIndex(g) == k)
  {
    var m := Devices(opens)[k];
    var f := FullHandle(k, modules[m][i].handle);
    DevicesRange(opens);
    OriginsAreModules(modules, f);
    RemapThenRoute(t, Origins(modules), f);
    RoutingFindsOrigin(t, Origins(modules), -1);
    DeviceUnshiftedIff(opens, m);
    if m == k {
      DeviceUnshiftedIff(opens, k);
    } else if forall j :: 0 <= j <= m ==> opens[j] {
      DevicesOfOpenPrefix(opens, m + 1);
    }
  }

  lemma TwoOrigins(a: Sensor, b: Sensor)
    ensures Origins([[a], [b]]) == [FullHandle(0, a.handle), FullHandle(1, b.handle)]
  {
    assert [[a], [b]][..1] == [[a]] && [[a]][..0] == [];
    assert ModuleOrigins(0, [a]) == [FullHandle(0, a.handle)] && ModuleOrigins(1, [b]) == [FullHandle(1, b.handle)];
    assert Origins([[a]]) == [FullHandle(0, a.handle)];
  }

  lemma OnlySecondOpens()
    ensures Devices([false, true]) == [1]
  {
    assert [false, true][..1] == [false] && [false][..0] == [];
    assert Devices([false]) == [];
  }

  /** Two modules with one sensor each and the same local handle; only the second one opens. A command for
      the first sensor goes to the second module, one for the second sensor goes nowhere, and a reading of
      the second sensor is taken for one of the first. */
  lemma SkippedOpenShifts(a: Sensor, b: Sensor, payload: int) returns (t: Tables)
    requires a.handle == b.handle
    ensures t.Describes(Origins([[a], [b]]))
    ensures CommandTarget(t, [false, true], 1) == Some(1) && CommandTarget(t, [false, true], 2) == None
    ensures t.Remap(0, Reading(b.handle, payload)).sensor == 1
  {
    hide Tables.Describes, Origins, Devices;
    var (f, g) := (FullHandle(0, a.handle), FullHandle(1, b.handle));
    TwoOrigins(a, b);
    OnlySecondOpens();
    t := NO_TABLES.Assign(f).Assign(g);
    NoTablesDescribeNothing();
    AssignExtends(NO_TABLES, [], f);
    AssignExtends(NO_TABLES.Assign(f), [] + [f], g);
    assert [] + [f] + [g] == [f, g];
  }

  lemma NoTablesDescribeNothing()
    ensures NO_TABLES.Describes([])
  {
  }
}
