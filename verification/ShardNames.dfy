/** Shard tasks, their table-name suffixes, and how the geo columns of a new split are
    recovered from the printed suffix. */
module ShardNames {
  import opened Strconv
  import opened Strings

  datatype Zone = Zone(name: string, states: seq<string>)

  datatype ShardingType = ZoneState | ZoneOnly | StateOnly

  /** A shard of one company; an absent dimension is the empty string. */
  datatype Task = Task(zone: string, state: string) {
    function Key(): string {
      if zone != "" && state != "" then zone + "_" + state
      else if zone != "" then zone
      else state
    }

    function Suffix(split: nat): string {
      Key() + "_" + Format(split)
    }

    predicate HasZone() {
      zone != ""
    }

    predicate HasState() {
      state != ""
    }
  }

  // ---------- tasks of a company ----------

  function StatesOf(zones: seq<Zone>): seq<string> {
    if zones == [] then [] else StatesOf(zones[..|zones| - 1]) + zones[|zones| - 1].states
  }

  function ZoneStateTasks(zones: seq<Zone>): seq<Task> {
    if zones == [] then []
    else
      var z := zones[|zones| - 1];
      ZoneStateTasks(zones[..|zones| - 1])
      + seq(|z.states|, i requires 0 <= i < |z.states| => Task(z.name, z.states[i]))
  }

  function Tasks(zones: seq<Zone>, st: ShardingType): seq<Task> {
    match st
    case ZoneState => ZoneStateTasks(zones)
    case ZoneOnly => seq(|zones|, i requires 0 <= i < |zones| => Task(zones[i].name, ""))
    case StateOnly => seq(|StatesOf(zones)|, i requires 0 <= i < |StatesOf(zones)| => Task("", StatesOf(zones)[i]))
  }

  method AllStates(zones: seq<Zone>) returns (states: seq<string>)
    ensures states == StatesOf(zones)
  {
    states := [];
    for i := 0 to |zones|
      invariant states == StatesOf(zones[..i])
    {
      assert zones[..i + 1][..i] == zones[..i];
      states := states + zones[i].states;
    }
    assert zones[..|zones|] == zones;
  }

  method BuildTasks(zones: seq<Zone>, st: ShardingType) returns (tasks: seq<Task>)
    ensures tasks == Tasks(zones, st)
  {
    tasks := [];
    match st
    case ZoneState =>
      for i := 0 to |zones|
        invariant tasks == ZoneStateTasks(zones[..i])
      {
        assert zones[..i + 1][..i] == zones[..i];
        var z, before := zones[i], tasks;
        for j := 0 to |z.states|
          invariant tasks == before + seq(j, k requires 0 <= k < j => Task(z.name, z.states[k]))
        {
          tasks := tasks + [Task(z.name, z.states[j])];
        }
      }
      assert zones[..|zones|] == zones;
    case ZoneOnly =>
      for i := 0 to |zones|
        invariant tasks == seq(i, k requires 0 <= k < i => Task(zones[k].name, ""))
      {
        tasks := tasks + [Task(zones[i].name, "")];
      }
    case StateOnly =>
      var states := AllStates(zones);
      for i := 0 to |states|
        invariant tasks == seq(i, k requires 0 <= k < i => Task("", states[k]))
      {
        tasks := tasks + [Task("", states[i])];
      }
  }

  // ---------- geo columns of a new split ----------

  /** 1 for a zone name, -1 for a state name, 0 for neither; the first match counts. */
  function ZoneParts(zones: seq<Zone>, key: string): int {
    if zones == [] then 0
    else
      var before, z := ZoneParts(zones[..|zones| - 1], key), zones[|zones| - 1];
      if before != 0 then before
      else if z.name == key then 1
      else if key in z.states then -1
      else 0
  }

  /** Which geo columns the tables of a suffix get: (zone, state). */
  function GeoColumns(zones: seq<Zone>, suffix: string): (bool, bool) {
    var parts := Split(suffix);
    var kind := ZoneParts(zones, Join(parts[..|parts| - 1]));
    (kind != -1, kind != 1)
  }

  method ClassifySuffix(zones: seq<Zone>, suffix: string) returns (hasZone: bool, hasState: bool)
    ensures (hasZone, hasState) == GeoColumns(zones, suffix)
  {
    var parts := Split(suffix);
    var geoKey := Join(parts[..|parts| - 1]);
    var zoneParts := 0;
    var i := 0;
    while i < |zones|
      invariant 0 <= i <= |zones| && zoneParts == ZoneParts(zones[..i], geoKey) == 0
    {
      assert zones[..i + 1][..i] == zones[..i];
      if zones[i].name == geoKey {
        zoneParts := 1;
      } else {
        for j := 0 to |zones[i].states|
          invariant zoneParts == if geoKey in zones[i].states[..j] then -1 else 0
        {
          if zones[i].states[j] == geoKey {
            zoneParts := -1;
            break;
          }
        }
      }
      i := i + 1;
      if zoneParts != 0 {
        break;
      }
    }
    PrefixDecides(zones, i, geoKey);
    hasZone, hasState := true, true;
    if zoneParts == 1 {
      hasState := false;
    } else if zoneParts == -1 {
      hasZone := false;
    }
  }

  lemma {:induction false} PrefixDecides(zones: seq<Zone>, i: nat, key: string)
    requires i <= |zones| && (i < |zones| ==> ZoneParts(zones[..i], key) != 0)
    ensures ZoneParts(zones, key) == ZoneParts(zones[..i], key)
    decreases |zones|
  {
    if i < |zones| {
      assert zones[..|zones| - 1][..i] == zones[..i];
      PrefixDecides(zones[..|zones| - 1], i, key);
    } else {
      assert zones[..i] == zones;
    }
  }

  // ---------- the round trip ----------

  ghost predicate Name(s: string) {
    s != "" && Plain(s)
  }

  /** Names are non-empty and without underscore, and no state is called like a zone. */
  ghost predicate WellFormed(zones: seq<Zone>) {
    && (forall z :: z in zones ==> Name(z.name))
    && (forall z, s :: z in zones && s in z.states ==> Name(s))
    && (forall z, y, s :: z in zones && y in zones && s in z.states ==> s != y.name)
  }

  lemma {:induction false} StateMember(zones: seq<Zone>, s: string)
    ensures s in StatesOf(zones) <==> exists z :: z in zones && s in z.states
  {
    if zones != [] {
      StateMember(zones[..|zones| - 1], s);
      assert zones == zones[..|zones| - 1] + [zones[|zones| - 1]];
    }
  }

  lemma {:induction false} ZoneStateMember(zones: seq<Zone>, t: Task)
    ensures t in ZoneStateTasks(zones) <==> exists z :: z in zones && t.zone == z.name && t.state in z.states
  {
    if zones != [] {
      var z := zones[|zones| - 1];
      ZoneStateMember(zones[..|zones| - 1], t);
      assert zones == zones[..|zones| - 1] + [z];
      if t.zone == z.name && t.state in z.states {
        var i :| 0 <= i < |z.states| && z.states[i] == t.state;
        var own := seq(|z.states|, i requires 0 <= i < |z.states| => Task(z.name, z.states[i]));
        assert own[i] == t;
        assert t in own;
      }
    }
  }

  /** What a task of each sharding type looks like. */
  lemma TaskShape(zones: seq<Zone>, st: ShardingType, t: Task)
    requires WellFormed(zones) && t in Tasks(zones, st)
    ensures st == ZoneState ==> t.zone != "" && t.state != "" && Plain(t.zone) && Plain(t.state)
    ensures st == ZoneOnly ==> t.state == "" && t.zone != "" && exists z :: z in zones && z.name == t.zone
    ensures st == StateOnly ==> t.zone == "" && t.state != "" && exists z :: z in zones && t.state in z.states
  {
    match st
    case ZoneState =>
      ZoneStateMember(zones, t);
      var z :| z in zones && t.zone == z.name && t.state in z.states;
      assert Name(z.name) && Name(t.state);
    case ZoneOnly =>
      var i :| 0 <= i < |zones| && Tasks(zones, st)[i] == t;
      assert zones[i] in zones;
    case StateOnly =>
      var i :| 0 <= i < |StatesOf(zones)| && Tasks(zones, st)[i] == t;
      StateMember(zones, t.state);
      var z :| z in zones && t.state in z.states;
      assert Name(t.state);
  }

  lemma {:induction false} ZonePartsMeaning(zones: seq<Zone>, key: string)
    requires WellFormed(zones)
    ensures ZoneParts(zones, key) == 1 <==> exists z :: z in zones && z.name == key
    ensures ZoneParts(zones, key) == -1 <==> exists z :: z in zones && key in z.states
    ensures ZoneParts(zones, key) in {-1, 0, 1}
  {
    if zones != [] {
      var front, z := zones[..|zones| - 1], zones[|zones| - 1];
      assert zones == front + [z];
      assert WellFormed(front);
      ZonePartsMeaning(front, key);
      assert z in zones;
    }
  }

  lemma SuffixParts(t: Task, split: nat)
    ensures Split(t.Suffix(split)) == Split(t.Key()) + [Format(split)]
    ensures Join(Split(t.Key())) == t.Key()
  {
    assert Plain(Format(split));
    SplitAppend(t.Key(), Format(split));
    JoinSplit(t.Key());
  }

  lemma TaskKind(zones: seq<Zone>, st: ShardingType, t: Task)
    requires WellFormed(zones) && t in Tasks(zones, st)
    ensures ZoneParts(zones, t.Key()) == match st case ZoneState => 0 case ZoneOnly => 1 case StateOnly => -1
  {
    TaskShape(zones, st, t);
    ZonePartsMeaning(zones, t.Key());
    if st == ZoneState {
      assert t.Key()[|t.zone|] == '_';
      assert !Name(t.Key());
    }
  }

  /** Creating the tables of a split recovers exactly the geo columns of its task. */
  lemma SuffixRoundTrip(zones: seq<Zone>, st: ShardingType, t: Task, split: nat)
    requires WellFormed(zones) && t in Tasks(zones, st)
    ensures GeoColumns(zones, t.Suffix(split)) == (t.HasZone(), t.HasState())
  {
    hide Split;
    hide Join;
    hide ZoneParts;
    hide Tasks;
    TaskShape(zones, st, t);
    TaskKind(zones, st, t);
    SuffixParts(t, split);
    hide Task.Suffix;
    hide Task.Key;
    hide WellFormed;
    hide Format;
    assert (Split(t.Key()) + [Format(split)])[..|Split(t.Key())|] == Split(t.Key());
  }

  /** Within a company no two (task, split) pairs share a table name. */
  lemma SuffixInjective(zones: seq<Zone>, st: ShardingType, t1: Task, n1: nat, t2: Task, n2: nat)
    requires WellFormed(zones) && t1 in Tasks(zones, st) && t2 in Tasks(zones, st)
    requires t1.Suffix(n1) == t2.Suffix(n2)
    ensures t1 == t2 && n1 == n2
  {
    TaskShape(zones, st, t1);
    TaskShape(zones, st, t2);
    SuffixParts(t1, n1);
    SuffixParts(t2, n2);
    var k1, k2 := Split(t1.Key()), Split(t2.Key());
    assert (k1 + [Format(n1)])[|k1|] == Format(n1) && (k2 + [Format(n2)])[|k2|] == Format(n2);
    assert k1 == (k1 + [Format(n1)])[..|k1|] == k2;
    FormatInjective(n1, n2);
    if st == ZoneState {
      KeyParts(t1);
      KeyParts(t2);
    }
  }

  lemma KeyParts(t: Task)
    requires t.zone != "" && t.state != "" && Plain(t.zone) && Plain(t.state)
    ensures Split(t.Key()) == [t.zone, t.state]
  {
    SplitAppend(t.zone, t.state);
    SplitPlain(t.zone);
  }

  // ---------- the shipped zone table ----------

  function North(): Zone {
    Zone("north", ["up", "bihar", "jharkhand", "hp", "uttarakhand", "punjab", "haryana", "jk", "delhi"])
  }

  function South(): Zone {
    Zone("south", ["tamilnadu", "kerala", "karnataka", "andhrapradesh", "telangana"])
  }

  function East(): Zone {
    Zone("east", ["westbengal", "odisha", "assam", "meghalaya", "tripura", "sikkim"])
  }

  function West(): Zone {
    Zone("west", ["maharashtra", "gujarat", "rajasthan", "goa"])
  }

  function Central(): Zone {
    Zone("central", ["mp", "chhattisgarh"])
  }

  function ShippedZones(): seq<Zone> {
    [North(), South(), East(), West(), Central()]
  }

  ghost predicate ZoneName(s: string) {
    s == "north" || s == "south" || s == "east" || s == "west" || s == "central"
  }

  ghost predicate StateName(s: string) {
    Name(s) && !ZoneName(s)
  }

  ghost predicate ZoneOk(z: Zone) {
    ZoneName(z.name) && forall s :: s in z.states ==> StateName(s)
  }

  lemma NorthStates()
    ensures StateName("up") && StateName("bihar") && StateName("jharkhand") && StateName("hp")
    ensures StateName("uttarakhand") && StateName("punjab") && StateName("haryana") && StateName("jk")
    ensures StateName("delhi")
  {}

  lemma NorthOk()
    ensures ZoneOk(North())
  {
    NorthStates();
    hide StateName;
  }

  lemma SouthOk()
    ensures ZoneOk(South())
  {
    assert StateName("tamilnadu") && StateName("kerala") && StateName("karnataka");
    assert StateName("andhrapradesh") && StateName("telangana");
    hide StateName;
  }

  lemma EastOk()
    ensures ZoneOk(East())
  {
    assert StateName("westbengal") && StateName("odisha") && StateName("assam");
    assert StateName("meghalaya") && StateName("tripura") && StateName("sikkim");
    hide StateName;
  }

  lemma WestOk()
    ensures ZoneOk(West()) && ZoneOk(Central())
  {
    assert StateName("maharashtra") && StateName("gujarat") && StateName("rajasthan") && StateName("goa");
    assert StateName("mp") && StateName("chhattisgarh");
    hide StateName;
  }

  lemma ZonesOk(zones: seq<Zone>)
    requires forall z :: z in zones ==> ZoneOk(z)
    ensures WellFormed(zones)
  {
    forall z | z in zones ensures Name(z.name) {
      assert ZoneOk(z);
    }
    forall z, s | z in zones && s in z.states ensures Name(s) {
      assert ZoneOk(z) && StateName(s);
    }
    forall z, y, s | z in zones && y in zones && s in z.states ensures s != y.name {
      assert ZoneOk(z) && ZoneOk(y) && StateName(s);
    }
  }

  /** The shipped zones satisfy the hypotheses of both results. */
  lemma ShippedZonesWellFormed()
    ensures WellFormed(ShippedZones())
  {
    hide ZoneOk;
    hide North;
    hide South;
    hide East;
    hide West;
    hide Central;
    hide WellFormed;
    NorthOk();
    SouthOk();
    EastOk();
    WestOk();
    ZonesOk(ShippedZones());
  }

  /** Names as they appear in the database. */
  lemma SuffixExamples()
    ensures Task("north", "up").Suffix(1) == "north_up_1"
    ensures Task("north", "").Suffix(2) == "north_2"
    ensures Task("", "up").Suffix(12) == "up_12"
  {
    assert Format(12) == Format(1) + "2";
  }

  // ---------- every shard ----------

  /** What a company shards by decides its tasks: each zone, each state of a zone, or each pair. */
  ghost predicate Wanted(zones: seq<Zone>, st: ShardingType, t: Task) {
    match st
    case ZoneState => exists z :: z in zones && t.zone == z.name && t.state in z.states
    case ZoneOnly => t.state == "" && exists z :: z in zones && t.zone == z.name
    case StateOnly => t.zone == "" && exists z :: z in zones && t.state in z.states
  }

  /** Every shard is built, and nothing else. */
  lemma TasksIff(zones: seq<Zone>, st: ShardingType, t: Task)
    ensures t in Tasks(zones, st) <==> Wanted(zones, st, t)
  {
    match st
    case ZoneState =>
      ZoneStateMember(zones, t);
    case ZoneOnly =>
      if z :| z in zones && t == Task(z.name, "") {
        var i :| 0 <= i < |zones| && zones[i] == z;
        assert Tasks(zones, st)[i] == t;
      }
    case StateOnly =>
      StateMember(zones, t.state);
      if t.zone == "" && t.state in StatesOf(zones) {
        var i :| 0 <= i < |StatesOf(zones)| && StatesOf(zones)[i] == t.state;
        assert Tasks(zones, st)[i] == t;
      }
  }

  /** States listed before zone i. */
  function StatesBefore(zones: seq<Zone>, i: nat): nat
    requires i <= |zones|
  {
    if i == 0 then 0 else StatesBefore(zones, i - 1) + |zones[i - 1].states|
  }

  /** In definition order, zone by zone and state by state. */
  lemma {:induction false} TaskOrder(zones: seq<Zone>, i: nat, j: nat)
    requires i < |zones|
    ensures |Tasks(zones, ZoneOnly)| == |zones| && Tasks(zones, ZoneOnly)[i] == Task(zones[i].name, "")
    ensures |Tasks(zones, StateOnly)| == |Tasks(zones, ZoneState)| == StatesBefore(zones, |zones|)
    ensures j < |zones[i].states| ==>
              && StatesBefore(zones, i) + j < StatesBefore(zones, |zones|)
              && Tasks(zones, StateOnly)[StatesBefore(zones, i) + j] == Task("", zones[i].states[j])
              && Tasks(zones, ZoneState)[StatesBefore(zones, i) + j] == Task(zones[i].name, zones[i].states[j])
  {
    var front := zones[..|zones| - 1];
    StatesCount(zones);
    StatesCount(front);
    BeforeFront(zones, |zones| - 1);
    if i < |zones| - 1 {
      TaskOrder(front, i, j);
      BeforeFront(zones, i);
    }
  }

  lemma {:induction false} BeforeFront(zones: seq<Zone>, i: nat)
    requires i < |zones|
    ensures StatesBefore(zones, i) == StatesBefore(zones[..|zones| - 1], i)
  {
    if i > 0 {
      BeforeFront(zones, i - 1);
    }
  }

  lemma {:induction false} StatesCount(zones: seq<Zone>)
    ensures |StatesOf(zones)| == |ZoneStateTasks(zones)| == StatesBefore(zones, |zones|)
  {
    if zones != [] {
      StatesCount(zones[..|zones| - 1]);
      BeforeFront(zones, |zones| - 1);
    }
  }

  // ---------- every shard once ----------

  ghost predicate Distinct<T>(s: seq<T>) {
    forall i, j :: 0 <= i < j < |s| ==> s[i] != s[j]
  }

  lemma {:induction false} TaskStates(zones: seq<Zone>)
    ensures |ZoneStateTasks(zones)| == |StatesOf(zones)|
    ensures forall i :: 0 <= i < |StatesOf(zones)| ==> ZoneStateTasks(zones)[i].state == StatesOf(zones)[i]
  {
    if zones != [] {
      TaskStates(zones[..|zones| - 1]);
    }
  }

  /** When no state and no zone is listed twice, no company has a task twice. */
  lemma TasksDistinct(zones: seq<Zone>, st: ShardingType)
    requires Distinct(StatesOf(zones)) && forall i, j :: 0 <= i < j < |zones| ==> zones[i].name != zones[j].name
    ensures Distinct(Tasks(zones, st))
  {
    TaskStates(zones);
  }

  /** The places of the shipped states. */
  function Place(state: string): nat {
    match state
    case "up" => 0
    case "bihar" => 1
    case "jharkhand" => 2
    case "hp" => 3
    case "uttarakhand" => 4
    case "punjab" => 5
    case "haryana" => 6
    case "jk" => 7
    case "delhi" => 8
    case "tamilnadu" => 9
    case "kerala" => 10
    case "karnataka" => 11
    case "andhrapradesh" => 12
    case "telangana" => 13
    case "westbengal" => 14
    case "odisha" => 15
    case "assam" => 16
    case "meghalaya" => 17
    case "tripura" => 18
    case "sikkim" => 19
    case "maharashtra" => 20
    case "gujarat" => 21
    case "rajasthan" => 22
    case "goa" => 23
    case "mp" => 24
    case "chhattisgarh" => 25
    case _ => 26
  }

  /** The names stand at consecutive places. */
  ghost predicate Placed(names: seq<string>, from: nat) {
    forall i :: 0 <= i < |names| ==> Place(names[i]) == from + i
  }

  lemma NorthPlaced()
    ensures Placed(North().states, 0) && |North().states| == 9
  {}

  lemma SouthPlaced()
    ensures Placed(South().states, 9) && |South().states| == 5
  {}

  lemma EastPlaced()
    ensures Placed(East().states, 14) && |East().states| == 6
  {}

  lemma WestPlaced()
    ensures Placed(West().states, 20) && |West().states| == 4
  {}

  lemma CentralPlaced()
    ensures Placed(Central().states, 24) && |Central().states| == 2
  {}

  lemma PlacedAppend(a: seq<string>, b: seq<string>, from: nat)
    requires Placed(a, from) && Placed(b, from + |a|)
    ensures Placed(a + b, from)
  {
    hide Place;
  }

  lemma PlacedDistinct(names: seq<string>, from: nat)
    requires Placed(names, from)
    ensures Distinct(names)
  {
    hide Place;
  }

  lemma StatesOfAppend(zones: seq<Zone>, z: Zone)
    ensures StatesOf(zones + [z]) == StatesOf(zones) + z.states
  {
    assert (zones + [z])[..|zones|] == zones;
  }

  lemma StatesOfFive(a: Zone, b: Zone, c: Zone, d: Zone, e: Zone)
    ensures StatesOf([a, b, c, d, e]) == a.states + b.states + c.states + d.states + e.states
  {
    hide StatesOf;
    StatesOfAppend([], a);
    StatesOfAppend([a], b);
    StatesOfAppend([a, b], c);
    StatesOfAppend([a, b, c], d);
    StatesOfAppend([a, b, c, d], e);
    assert [] + [a] == [a] && [a] + [b] == [a, b] && [a, b] + [c] == [a, b, c];
    assert [a, b, c] + [d] == [a, b, c, d] && [a, b, c, d] + [e] == [a, b, c, d, e];
    StatesOfNone();
    assert [] + a.states == a.states;
  }

  lemma StatesOfNone()
    ensures StatesOf([]) == []
  {}

  lemma PlacedFive(a: seq<string>, b: seq<string>, c: seq<string>, d: seq<string>, e: seq<string>)
    requires Placed(a, 0) && Placed(b, |a|) && Placed(c, |a| + |b|) && Placed(d, |a| + |b| + |c|)
    requires Placed(e, |a| + |b| + |c| + |d|)
    ensures Distinct(a + b + c + d + e)
  {
    hide *;
    PlacedAppend(a, b, 0);
    PlacedAppend(a + b, c, 0);
    PlacedAppend(a + b + c, d, 0);
    PlacedAppend(a + b + c + d, e, 0);
    PlacedDistinct(a + b + c + d + e, 0);
  }

  /** The shipped table lists no state and no zone twice. */
  lemma ShippedZonesDistinct()
    ensures Distinct(StatesOf(ShippedZones()))
    ensures forall i, j :: 0 <= i < j < |ShippedZones()| ==> ShippedZones()[i].name != ShippedZones()[j].name
  {
    hide North, South, East, West, Central, Placed, StatesOf, Distinct;
    NorthPlaced();
    SouthPlaced();
    EastPlaced();
    WestPlaced();
    CentralPlaced();
    NamesDiffer();
    StatesOfFive(North(), South(), East(), West(), Central());
    PlacedFive(North().states, South().states, East().states, West().states, Central().states);
  }

  lemma NamesDiffer()
    ensures forall i, j :: 0 <= i < j < |ShippedZones()| ==> ShippedZones()[i].name != ShippedZones()[j].name
  {
    assert North().name[0] == 'n' && South().name[0] == 's' && East().name[0] == 'e';
    assert West().name[0] == 'w' && Central().name[0] == 'c';
    hide North, South, East, West, Central;
  }

  /** So every company builds each of its tasks once. */
  lemma ShippedTasksDistinct(st: ShardingType)
    ensures Distinct(Tasks(ShippedZones(), st))
  {
    hide StatesOf, ShippedZones;
    ShippedZonesDistinct();
    TasksDistinct(ShippedZones(), st);
  }
}
