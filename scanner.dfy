/**
  The scan of the main program (unt-scan.py, `__main__`): every flattened item whose
  package is installed in an older version alerts, unless alert-once is on and its
  advisory id is already registered; each alert registers the id and marks that issues
  were found, which decides the exit status. The package cache lookup and the Debian
  version comparison are parameters.
*/
module Scanner {
  import opened Wrappers
  import opened Advisories
  import opened Registry

  /** The installed version of a package; None when it is unknown or not installed. */
  type Inventory = string -> Option<string>

  /** A version comparison: negative when the first version is older than the second. */
  type Comparator = (string, string) -> int

  /** The settings the scan depends on. */
  datatype Config = Config(persistentStorage: bool, alertOnce: bool)

  /** What is printed for one alert. */
  datatype Alert = Alert(
    unt: string,
    cves: seq<string>,
    name: string,
    installedVersion: string,
    fixVersion: string,
    summary: string)

  datatype RunResult =
    | ConfigRejected  // alert-once without persistent storage: a RuntimeError before any work
    | Completed(alerts: seq<Alert>, exitStatus: int, savedRegistry: seq<string>)

  /** The package of `item` is installed in a version older than the fixed one. */
  predicate Vulnerable(item: Item, inventory: Inventory, compare: Comparator)
  {
    inventory(item.name).Some? && compare(inventory(item.name).value, item.version) < 0
  }

  /** A vulnerable item alerts unless alert-once is on and its id is already registered. */
  predicate Fires(item: Item, inventory: Inventory, compare: Comparator, alertOnce: bool, registered: seq<string>)
  {
    Vulnerable(item, inventory, compare) && (!alertOnce || item.unt !in registered)
  }

  function AlertFor(item: Item, installed: string): Alert
  {
    Alert(item.unt, item.cves, item.name, installed, item.version, item.summary)
  }

  /** The alerts of a scan over `items`, starting from the registry list `registered`. */
  function Alerts(items: seq<Item>, inventory: Inventory, compare: Comparator, alertOnce: bool, registered: seq<string>): seq<Alert>
  {
    if items == [] then []
    else if Fires(items[0], inventory, compare, alertOnce, registered) then
      [AlertFor(items[0], inventory(items[0].name).value)]
      + Alerts(items[1..], inventory, compare, alertOnce, registered + [items[0].unt])
    else Alerts(items[1..], inventory, compare, alertOnce, registered)
  }

  /** Reference: one alert per vulnerable item, registry ignored. */
  function VulnerableAlerts(items: seq<Item>, inventory: Inventory, compare: Comparator): seq<Alert>
  {
    if items == [] then []
    else if Vulnerable(items[0], inventory, compare) then
      [AlertFor(items[0], inventory(items[0].name).value)] + VulnerableAlerts(items[1..], inventory, compare)
    else VulnerableAlerts(items[1..], inventory, compare)
  }

  function Ids(alerts: seq<Alert>): seq<string>
  {
    seq(|alerts|, k requires 0 <= k < |alerts| => alerts[k].unt)
  }

  predicate Distinct(ids: seq<string>)
  {
    forall i, j :: 0 <= i < j < |ids| ==> ids[i] != ids[j]
  }

  lemma IdsAppend(a: seq<Alert>, b: seq<Alert>)
    ensures Ids(a + b) == Ids(a) + Ids(b)
  {
  }

  /** One iteration of the scan loop keeps the loop's invariant. */
  lemma ScanStep(items: seq<Item>, i: nat, inventory: Inventory, compare: Comparator, alertOnce: bool,
                 start: seq<string>, alerts: seq<Alert>, registered: seq<string>)
    requires i < |items|
    requires registered == start + Ids(alerts)
    requires alerts + Alerts(items[i..], inventory, compare, alertOnce, registered)
          == Alerts(items, inventory, compare, alertOnce, start)
    ensures Fires(items[i], inventory, compare, alertOnce, registered) ==>
      var alerts' := alerts + [AlertFor(items[i], inventory(items[i].name).value)];
      var registered' := registered + [items[i].unt];
      registered' == start + Ids(alerts') &&
      alerts' + Alerts(items[i + 1..], inventory, compare, alertOnce, registered')
        == Alerts(items, inventory, compare, alertOnce, start)
    ensures !Fires(items[i], inventory, compare, alertOnce, registered) ==>
      alerts + Alerts(items[i + 1..], inventory, compare, alertOnce, registered)
        == Alerts(items, inventory, compare, alertOnce, start)
  {
    assert items[i..][0] == items[i];
    assert items[i..][1..] == items[i + 1..];
    if Fires(items[i], inventory, compare, alertOnce, registered) {
      IdsAppend(alerts, [AlertFor(items[i], inventory(items[i].name).value)]);
    }
  }

  /** Exit status of a completed scan: 1 when issues were found, else 0 (sys.exit is not reached). */
  function ExitStatus(issuesFound: bool): int
  {
    if issuesFound then 1 else 0
  }

  /** The loop over the flattened items; `registry` is updated in place. */
  method Scan(items: seq<Item>, inventory: Inventory, compare: Comparator, alertOnce: bool, registry: AlertRegistry)
    returns (alerts: seq<Alert>, issuesFound: bool)
    modifies registry`registry
    ensures alerts == Alerts(items, inventory, compare, alertOnce, old(registry.registry))
    ensures registry.registry == old(registry.registry) + Ids(alerts)
    ensures issuesFound <==> alerts != []
  {
    alerts, issuesFound := [], false;
    ghost var start := registry.registry;
    var i := 0;
    while i < |items|
      invariant 0 <= i <= |items|
      invariant registry.registry == start + Ids(alerts)
      invariant alerts + Alerts(items[i..], inventory, compare, alertOnce, registry.registry)
             == Alerts(items, inventory, compare, alertOnce, start)
      invariant issuesFound <==> alerts != []
    {
      var item := items[i];
      ghost var registered := registry.registry;
      ScanStep(items, i, inventory, compare, alertOnce, start, alerts, registered);
      var installed := inventory(item.name);
      var alert := false;
      if installed.Some? && compare(installed.value, item.version) < 0 {
        if alertOnce {
          var known := registry.IsRegistered(item.unt);
          alert := !known;
        } else {
          alert := true;
        }
      }
      assert alert == Fires(item, inventory, compare, alertOnce, registered);
      if alert {
        var found := AlertFor(item, installed.value);
        registry.Register(item.unt);
        issuesFound := true;
        alerts := alerts + [found];
      }
      i := i + 1;
    }
    assert items[i..] == [];
  }

  /**
    One run after option parsing, on the decoded database: the alert-once/storage check,
    the filter for `codename`, the registry loaded from its file, the scan, the save and
    the exit status.
  */
  method Run(config: Config, db: Database, codename: string, inventory: Inventory, compare: Comparator,
             registryFile: Option<seq<string>>)
    returns (result: RunResult)
    ensures config.alertOnce && !config.persistentStorage ==> result == ConfigRejected
    ensures !(config.alertOnce && !config.persistentStorage) ==>
      var alerts := Alerts(FilterDb(db, codename), inventory, compare, config.alertOnce, Loaded(registryFile));
      result == Completed(alerts, if alerts != [] then 1 else 0, Loaded(registryFile) + Ids(alerts))
  {
    if config.alertOnce && !config.persistentStorage {
      return ConfigRejected;
    }
    var items := FilterDb(db, codename);
    var registry := new AlertRegistry(registryFile);
    var alerts, issuesFound := Scan(items, inventory, compare, config.alertOnce, registry);
    registry.Save();
    result := Completed(alerts, ExitStatus(issuesFound), registry.stored.value);
  }

  /** Every alert is for a vulnerable item and reports its installed and fixed versions. */
  lemma {:induction false} AlertsAreVulnerable(items: seq<Item>, inventory: Inventory, compare: Comparator,
                                               alertOnce: bool, registered: seq<string>, k: nat)
    requires k < |Alerts(items, inventory, compare, alertOnce, registered)|
    ensures exists i :: (0 <= i < |items| && Vulnerable(items[i], inventory, compare) &&
      Alerts(items, inventory, compare, alertOnce, registered)[k] == AlertFor(items[i], inventory(items[i].name).value))
  {
    var rest := items[1..];
    if Fires(items[0], inventory, compare, alertOnce, registered) {
      if k > 0 {
        AlertsAreVulnerable(rest, inventory, compare, alertOnce, registered + [items[0].unt], k - 1);
        var i :| 0 <= i < |rest| && Vulnerable(rest[i], inventory, compare) &&
          Alerts(rest, inventory, compare, alertOnce, registered + [items[0].unt])[k - 1]
            == AlertFor(rest[i], inventory(rest[i].name).value);
        assert items[i + 1] == rest[i];
      } else {
        assert Vulnerable(items[0], inventory, compare);
      }
    } else {
      AlertsAreVulnerable(rest, inventory, compare, alertOnce, registered, k);
      var i :| 0 <= i < |rest| && Vulnerable(rest[i], inventory, compare) &&
        Alerts(rest, inventory, compare, alertOnce, registered)[k] == AlertFor(rest[i], inventory(rest[i].name).value);
      assert items[i + 1] == rest[i];
    }
  }

  /** Without alert-once every vulnerable item alerts, whatever the registry holds. */
  lemma {:induction false} ShowAllReportsEveryVulnerable(items: seq<Item>, inventory: Inventory, compare: Comparator,
                                                         registered: seq<string>)
    ensures Alerts(items, inventory, compare, false, registered) == VulnerableAlerts(items, inventory, compare)
  {
    if items != [] {
      ShowAllReportsEveryVulnerable(items[1..], inventory, compare, registered + [items[0].unt]);
      ShowAllReportsEveryVulnerable(items[1..], inventory, compare, registered);
    }
  }

  /**
    With alert-once, no alert is for an id that was registered when the scan began, and
    no id alerts twice within the scan, even for later packages of the same advisory.
  */
  lemma {:induction false} AlertOnceNeverRepeats(items: seq<Item>, inventory: Inventory, compare: Comparator,
                                                 registered: seq<string>)
    ensures forall k :: 0 <= k < |Alerts(items, inventory, compare, true, registered)| ==>
      Alerts(items, inventory, compare, true, registered)[k].unt !in registered
    ensures Distinct(Ids(Alerts(items, inventory, compare, true, registered)))
  {
    if items != [] {
      var item := items[0];
      if Fires(item, inventory, compare, true, registered) {
        var more := registered + [item.unt];
        AlertOnceNeverRepeats(items[1..], inventory, compare, more);
        var tail := Alerts(items[1..], inventory, compare, true, more);
        var head := AlertFor(item, inventory(item.name).value);
        forall k | 0 <= k < |tail| ensures tail[k].unt !in registered && tail[k].unt != item.unt {
          assert tail[k].unt !in more;
        }
        IdsAppend([head], tail);
        var ids := Ids([head] + tail);
        forall i, j | 0 <= i < j < |ids| ensures ids[i] != ids[j] {
          if i > 0 {
            assert ids[i] == Ids(tail)[i - 1] && ids[j] == Ids(tail)[j - 1];
          } else {
            assert ids[j] == tail[j - 1].unt;
          }
        }
      } else {
        AlertOnceNeverRepeats(items[1..], inventory, compare, registered);
      }
    }
  }

  /**
    With alert-once, the alert for an id is the one for the first vulnerable package of
    that advisory in scan order; later packages of the same advisory are suppressed.
  */
  lemma {:induction false} AlertOnceReportsFirstPackage(items: seq<Item>, inventory: Inventory, compare: Comparator,
                                                        registered: seq<string>, k: nat)
    requires k < |Alerts(items, inventory, compare, true, registered)|
    ensures var alert := Alerts(items, inventory, compare, true, registered)[k];
      exists i :: 0 <= i < |items| && Vulnerable(items[i], inventory, compare) && items[i].unt == alert.unt &&
        alert == AlertFor(items[i], inventory(items[i].name).value) &&
        forall j :: 0 <= j < i && Vulnerable(items[j], inventory, compare) ==> items[j].unt != alert.unt
  {
    var item, rest := items[0], items[1..];
    var alert := Alerts(items, inventory, compare, true, registered)[k];
    var more := if Fires(item, inventory, compare, true, registered) then registered + [item.unt] else registered;
    if Fires(item, inventory, compare, true, registered) && k == 0 {
      assert Vulnerable(items[0], inventory, compare) && alert == AlertFor(items[0], inventory(items[0].name).value);
    } else {
      var k' := if Fires(item, inventory, compare, true, registered) then k - 1 else k;
      assert alert == Alerts(rest, inventory, compare, true, more)[k'];
      AlertOnceNeverRepeats(rest, inventory, compare, more);
      assert alert.unt !in more;
      assert Vulnerable(item, inventory, compare) ==> item.unt != alert.unt;
      AlertOnceReportsFirstPackage(rest, inventory, compare, more, k');
      var i :| 0 <= i < |rest| && Vulnerable(rest[i], inventory, compare) && rest[i].unt == alert.unt &&
        alert == AlertFor(rest[i], inventory(rest[i].name).value) &&
        forall j :: 0 <= j < i && Vulnerable(rest[j], inventory, compare) ==> rest[j].unt != alert.unt;
      assert items[i + 1] == rest[i];
      forall j | 0 <= j < i + 1 && Vulnerable(items[j], inventory, compare) ensures items[j].unt != alert.unt {
        if j > 0 {
          assert items[j] == rest[j - 1];
        }
      }
    }
  }

  /** After a scan, in either mode, the id of every vulnerable item is registered. */
  lemma {:induction false} VulnerableEndsRegistered(items: seq<Item>, inventory: Inventory, compare: Comparator,
                                                    alertOnce: bool, registered: seq<string>, i: nat)
    requires i < |items| && Vulnerable(items[i], inventory, compare)
    ensures items[i].unt in registered + Ids(Alerts(items, inventory, compare, alertOnce, registered))
  {
    var item := items[0];
    var rest := items[1..];
    if i > 0 {
      assert rest[i - 1] == items[i];
    }
    if Fires(item, inventory, compare, alertOnce, registered) {
      var more := registered + [item.unt];
      var tail := Alerts(rest, inventory, compare, alertOnce, more);
      IdsAppend([AlertFor(item, inventory(item.name).value)], tail);
      assert registered + Ids(Alerts(items, inventory, compare, alertOnce, registered)) == more + Ids(tail);
      if i > 0 {
        VulnerableEndsRegistered(rest, inventory, compare, alertOnce, more, i - 1);
      }
    } else if i > 0 {
      VulnerableEndsRegistered(rest, inventory, compare, alertOnce, registered, i - 1);
    }
  }

  /** With alert-once, nothing alerts when every vulnerable item's id is already registered. */
  lemma {:induction false} AllRegisteredIsSilent(items: seq<Item>, inventory: Inventory, compare: Comparator,
                                                 registered: seq<string>)
    requires forall i :: 0 <= i < |items| && Vulnerable(items[i], inventory, compare) ==> items[i].unt in registered
    ensures Alerts(items, inventory, compare, true, registered) == []
  {
    if items != [] {
      assert !Fires(items[0], inventory, compare, true, registered);
      forall i | 0 <= i < |items[1..]| && Vulnerable(items[1..][i], inventory, compare)
        ensures items[1..][i].unt in registered
      {
        assert items[1..][i] == items[i + 1];
      }
      AllRegisteredIsSilent(items[1..], inventory, compare, registered);
    }
  }

  /** Re-running the same items against the saved registry with alert-once emits nothing. */
  lemma SecondRunIsSilent(items: seq<Item>, inventory: Inventory, compare: Comparator,
                          alertOnce: bool, registered: seq<string>)
    ensures Alerts(items, inventory, compare, true,
                   registered + Ids(Alerts(items, inventory, compare, alertOnce, registered))) == []
  {
    var saved := registered + Ids(Alerts(items, inventory, compare, alertOnce, registered));
    forall i | 0 <= i < |items| && Vulnerable(items[i], inventory, compare) ensures items[i].unt in saved {
      VulnerableEndsRegistered(items, inventory, compare, alertOnce, registered, i);
    }
    AllRegisteredIsSilent(items, inventory, compare, saved);
  }

  lemma DistinctConcat(x: seq<string>, y: seq<string>)
    requires Distinct(x) && Distinct(y)
    requires forall k :: 0 <= k < |y| ==> y[k] !in x
    ensures Distinct(x + y)
  {
    forall i, j | 0 <= i < j < |x + y| ensures (x + y)[i] != (x + y)[j] {
      if i >= |x| {
        assert (x + y)[i] == y[i - |x|];
      }
    }
  }

  /**
    Across two alert-once runs, the second one scanning any items against the registry the
    first one saved, each id alerts at most once and none that was registered before.
  */
  lemma AtMostOncePerIdAcrossRuns(first: seq<Item>, second: seq<Item>, inventory: Inventory,
                                  compare: Comparator, registered: seq<string>)
    ensures var run1 := Alerts(first, inventory, compare, true, registered);
            var run2 := Alerts(second, inventory, compare, true, registered + Ids(run1));
            Distinct(Ids(run1 + run2)) &&
            forall k :: 0 <= k < |run1 + run2| ==> (run1 + run2)[k].unt !in registered
  {
    var run1 := Alerts(first, inventory, compare, true, registered);
    var saved := registered + Ids(run1);
    var run2 := Alerts(second, inventory, compare, true, saved);
    AlertOnceNeverRepeats(first, inventory, compare, registered);
    AlertOnceNeverRepeats(second, inventory, compare, saved);
    var both := run1 + run2;
    IdsAppend(run1, run2);
    forall k | 0 <= k < |Ids(run2)| ensures Ids(run2)[k] !in Ids(run1) {
      assert Ids(run2)[k] == run2[k].unt && run2[k].unt !in saved;
    }
    DistinctConcat(Ids(run1), Ids(run2));
    forall k | 0 <= k < |both| ensures both[k].unt !in registered {
      if k >= |run1| {
        assert both[k] == run2[k - |run1|];
      }
    }
  }

  /**
    A run on a feed fixing curl in 7.58.0-2ubuntu3.8 for bionic, with 7.58.0-2ubuntu3.6
    installed: the first alert-once run on an empty registry alerts once and exits 1;
    a second run on the saved registry alerts nothing and exits 0.
  */
  method CurlScenario(inventory: Inventory, compare: Comparator) returns (first: RunResult, second: RunResult)
    requires inventory("curl") == Some("7.58.0-2ubuntu3.6")
    requires compare("7.58.0-2ubuntu3.6", "7.58.0-2ubuntu3.8") < 0
    ensures first.Completed? && first.exitStatus == 1 && first.savedRegistry == ["USN-42-1"]
    ensures first.alerts == [Alert("USN-42-1", ["CVE-2019-5481"], "curl", "7.58.0-2ubuntu3.6",
                                   "7.58.0-2ubuntu3.8", "No summary")]
    ensures second.Completed? && second.alerts == [] && second.exitStatus == 0
  {
    var advisory := Advisory(map["bionic" := Release([("curl", Binary("7.58.0-2ubuntu3.8"))])],
                             ["CVE-2019-5481"], None, None);
    var db := [("USN-42-1", advisory)];
    var config := Config(true, true);
    first := Run(config, db, "bionic", inventory, compare, None);
    second := Run(config, db, "bionic", inventory, compare, Some(first.savedRegistry));
  }
}
