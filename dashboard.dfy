/** The dashboard app.py: a fixed table of sample incidents per district of
    the Tamil Nadu grid, a district and severity filter, three KPIs, the
    marker colour of the map and the per-district maintenance guidance. */
module Dashboard {
  import opened Inspection

  /** One incident of `district_data`. */
  datatype Incident = Incident(lat: real, lon: real, fault: string, severity: string)

  /** `district_data`: district names with their incidents, in the dict's order. */
  type Districts = seq<(string, seq<Incident>)>

  const DistrictData: Districts := [
    ("Chennai", [
      Incident(13.0827, 80.2707, "Overheating Connector (Thermal)", "Critical"),
      Incident(12.9165, 80.2295, "Rust on Insulator Clamp", "Medium")]),
    ("Kanchipuram", [
      Incident(12.6940, 79.9776, "Vegetation Risk near Power Line", "High"),
      Incident(12.85, 79.7, "Corrosion on Tower Base", "Medium")]),
    ("Madurai", [
      Incident(9.9252, 78.1198, "Damaged Cross-arm", "High"),
      Incident(9.95, 78.15, "Bird Nest Obstruction", "Low")]),
    ("Coimbatore", [
      Incident(11.0168, 76.9558, "Thermal Hotspot on Connector", "High"),
      Incident(11.05, 76.9, "Vegetation Growth close to Line", "Critical")]),
    ("Trichy", [
      Incident(10.7905, 78.7047, "Rust on Bolts and Joints", "Medium"),
      Incident(10.82, 78.68, "Tower Tilt Detected", "High")]),
    ("Salem", [
      Incident(11.6643, 78.1460, "Insulator Flashover Risk", "Critical"),
      Incident(11.7, 78.15, "Partial Conductor Damage", "High")])
  ]

  /** The severity options of the sidebar, all selected by default. */
  const AllSeverities: seq<string> := ["Critical", "High", "Medium", "Low"]

  predicate HasDistrict(ds: Districts, name: string) {
    exists i :: 0 <= i < |ds| && ds[i].0 == name
  }

  /** `[i for inc in district_data.values() for i in inc]` */
  function AllIncidents(ds: Districts): seq<Incident> {
    if ds == [] then [] else ds[0].1 + AllIncidents(ds[1..])
  }

  /** `district_data[district]`; the select box offers only the keys. */
  function Lookup(ds: Districts, name: string): (r: seq<Incident>)
    requires HasDistrict(ds, name)
    ensures exists i :: 0 <= i < |ds| && ds[i].0 == name && ds[i].1 == r
  {
    if ds[0].0 == name then ds[0].1
    else
      assert HasDistrict(ds[1..], name) by {
        var i :| 0 <= i < |ds| && ds[i].0 == name;
        assert ds[1..][i - 1] == ds[i];
      }
      Lookup(ds[1..], name)
  }

  /** The incidents whose severity is one of the selected severities, in order. */
  function FilterSeverity(incs: seq<Incident>, filter: seq<string>): seq<Incident> {
    if incs == [] then []
    else (if incs[0].severity in filter then [incs[0]] else []) + FilterSeverity(incs[1..], filter)
  }

  /** `district_incidents`. */
  function DistrictIncidents(ds: Districts, district: string, filter: seq<string>): seq<Incident>
    requires HasDistrict(ds, district)
  {
    FilterSeverity(Lookup(ds, district), filter)
  }

  /** `sum(1 for i in all_incidents if i["severity"] == "Critical")` */
  function CountCritical(incs: seq<Incident>): nat {
    if incs == [] then 0
    else (if incs[0].severity == "Critical" then 1 else 0) + CountCritical(incs[1..])
  }

  /** The three KPIs: flagged sites in the state, in the district, critical ones. */
  datatype DashboardKpis = DashboardKpis(totalSites: nat, districtSites: nat, critical: nat)

  function Kpis(ds: Districts, district: string, filter: seq<string>): (k: DashboardKpis)
    requires HasDistrict(ds, district)
    ensures k.critical <= k.totalSites
    ensures k.districtSites <= |Lookup(ds, district)| <= k.totalSites
  {
    var all := AllIncidents(ds);
    CountCriticalBound(all);
    FilterSeveritySpec(Lookup(ds, district), filter);
    LookupInAll(ds, district);
    DashboardKpis(|all|, |DistrictIncidents(ds, district, filter)|, CountCritical(all))
  }

  /** The filter keeps exactly the incidents with a selected severity. */
  lemma {:induction false} FilterSeveritySpec(incs: seq<Incident>, filter: seq<string>)
    ensures |FilterSeverity(incs, filter)| <= |incs|
    ensures forall x :: x in FilterSeverity(incs, filter) <==> x in incs && x.severity in filter
  {
    if incs != [] {
      FilterSeveritySpec(incs[1..], filter);
      assert incs == [incs[0]] + incs[1..];
    }
  }

  /** The filter keeps the order: filtering a concatenation concatenates
      the filtered parts. */
  lemma {:induction false} FilterSeverityAppend(a: seq<Incident>, b: seq<Incident>, filter: seq<string>)
    ensures FilterSeverity(a + b, filter) == FilterSeverity(a, filter) + FilterSeverity(b, filter)
  {
    if a != [] {
      assert (a + b)[1..] == a[1..] + b;
      FilterSeverityAppend(a[1..], b, filter);
    } else {
      assert a + b == b;
    }
  }

  /** With every severity selected, as by default, nothing is filtered out. */
  lemma {:induction false} FullFilterKeepsAll(incs: seq<Incident>)
    requires forall i :: 0 <= i < |incs| ==> KnownSeverity(incs[i].severity)
    ensures FilterSeverity(incs, AllSeverities) == incs
  {
    if incs != [] {
      FullFilterKeepsAll(incs[1..]);
    }
  }

  /** A district's incidents are among all incidents. */
  lemma {:induction false} LookupInAll(ds: Districts, name: string)
    requires HasDistrict(ds, name)
    ensures |Lookup(ds, name)| <= |AllIncidents(ds)|
    ensures forall x :: x in Lookup(ds, name) ==> x in AllIncidents(ds)
  {
    if ds[0].0 != name {
      var i :| 0 <= i < |ds| && ds[i].0 == name;
      assert ds[1..][i - 1] == ds[i];
      LookupInAll(ds[1..], name);
    }
  }

  lemma {:induction false} CountCriticalBound(incs: seq<Incident>)
    ensures CountCritical(incs) <= |incs|
  {
    if incs != [] {
      CountCriticalBound(incs[1..]);
    }
  }

  /** The total and critical KPIs do not depend on the district or the
      severity filter. */
  lemma KpisStateWide(ds: Districts, d1: string, f1: seq<string>, d2: string, f2: seq<string>)
    requires HasDistrict(ds, d1) && HasDistrict(ds, d2)
    ensures Kpis(ds, d1, f1).totalSites == Kpis(ds, d2, f2).totalSites
    ensures Kpis(ds, d1, f1).critical == Kpis(ds, d2, f2).critical
  {
  }

  /** The data set: twelve incidents, three of them critical, all with a
      known severity. */
  lemma DistrictDataFacts()
    ensures |AllIncidents(DistrictData)| == 12
    ensures CountCritical(AllIncidents(DistrictData)) == 3
    ensures AllKnown(AllIncidents(DistrictData))
  {
    var ds := DistrictData;
    DistrictDataSplit();
    DistrictsEach();
    ConcatSix(ds[0].1, ds[1].1, ds[2].1, ds[3].1, ds[4].1, ds[5].1);
  }

  /** Each district of the data set has two incidents of known severity; one
      each in Chennai, Madurai and Salem is critical. */
  lemma DistrictsEach()
    ensures var ds := DistrictData;
            |ds| == 6 &&
            (forall d :: 0 <= d < 6 ==> |ds[d].1| == 2 && AllKnown(ds[d].1)) &&
            CountCritical(ds[0].1) == 1 && CountCritical(ds[1].1) == 0 && CountCritical(ds[2].1) == 0 &&
            CountCritical(ds[3].1) == 1 && CountCritical(ds[4].1) == 0 && CountCritical(ds[5].1) == 1
  {
    var ds := DistrictData;
    assert AllKnown(ds[0].1) && AllKnown(ds[1].1) && AllKnown(ds[2].1);
    assert AllKnown(ds[3].1) && AllKnown(ds[4].1) && AllKnown(ds[5].1);
  }

  /** Length, critical count and known severities of six joined lists. */
  lemma ConcatSix(a0: seq<Incident>, a1: seq<Incident>, a2: seq<Incident>,
                  a3: seq<Incident>, a4: seq<Incident>, a5: seq<Incident>)
    requires AllKnown(a0) && AllKnown(a1) && AllKnown(a2) && AllKnown(a3) && AllKnown(a4) && AllKnown(a5)
    ensures var all := a0 + (a1 + (a2 + (a3 + (a4 + a5))));
            |all| == |a0| + |a1| + |a2| + |a3| + |a4| + |a5| &&
            CountCritical(all) == CountCritical(a0) + CountCritical(a1) + CountCritical(a2)
                                + CountCritical(a3) + CountCritical(a4) + CountCritical(a5) &&
            AllKnown(all)
  {
    var t4 := a4 + a5;
    var t3 := a3 + t4;
    var t2 := a2 + t3;
    var t1 := a1 + t2;
    CountCriticalAppend(a4, a5);
    CountCriticalAppend(a3, t4);
    CountCriticalAppend(a2, t3);
    CountCriticalAppend(a1, t2);
    CountCriticalAppend(a0, t1);
    AllKnownAppend(a4, a5);
    AllKnownAppend(a3, t4);
    AllKnownAppend(a2, t3);
    AllKnownAppend(a1, t2);
    AllKnownAppend(a0, t1);
  }

  /** All incidents of the data set, district by district. */
  lemma DistrictDataSplit()
    ensures var ds := DistrictData;
            |ds| == 6 &&
            AllIncidents(ds) == ds[0].1 + (ds[1].1 + (ds[2].1 + (ds[3].1 + (ds[4].1 + ds[5].1))))
  {
    var ds := DistrictData;
    assert AllIncidents(ds[6..]) == [];
    assert AllIncidents(ds[5..]) == ds[5].1 + AllIncidents(ds[6..]);
    assert AllIncidents(ds[4..]) == ds[4].1 + AllIncidents(ds[5..]);
    assert AllIncidents(ds[3..]) == ds[3].1 + AllIncidents(ds[4..]);
    assert AllIncidents(ds[2..]) == ds[2].1 + AllIncidents(ds[3..]);
    assert AllIncidents(ds[1..]) == ds[1].1 + AllIncidents(ds[2..]);
    assert ds[5].1 + [] == ds[5].1;
  }

  /** Every incident has one of the four known severities. */
  predicate AllKnown(incs: seq<Incident>) {
    forall i :: 0 <= i < |incs| ==> KnownSeverity(incs[i].severity)
  }

  lemma AllKnownAppend(a: seq<Incident>, b: seq<Incident>)
    requires AllKnown(a) && AllKnown(b)
    ensures AllKnown(a + b)
  {
    forall i | 0 <= i < |a + b|
      ensures KnownSeverity((a + b)[i].severity)
    {
      if i >= |a| {
        assert (a + b)[i] == b[i - |a|];
      }
    }
  }

  lemma {:induction false} CountCriticalAppend(a: seq<Incident>, b: seq<Incident>)
    ensures CountCritical(a + b) == CountCritical(a) + CountCritical(b)
  {
    if a != [] {
      assert (a + b)[1..] == a[1..] + b;
      CountCriticalAppend(a[1..], b);
    } else {
      assert a + b == b;
    }
  }

  /** Map marker colour: red for "High" and "Critical", orange otherwise. */
  function MarkerColour(severity: string): (c: string)
    ensures c == "red" <==> SeverityRank(severity) >= 2
    ensures c == "orange" <==> SeverityRank(severity) < 2
  {
    if severity in ["High", "Critical"] then "red" else "orange"
  }

  /** The maintenance alerts of each district. */
  const Guidance: map<string, seq<string>> := map[
    "Chennai" := [
      "\U{26A1} Tower #42 (Tambaram): Failure Probability 78%",
      "\U{26A1} Insulator at Sriperumbudur Line: Failure Probability 65%",
      "\U{26A1} Vegetation near Chengalpattu Line: Immediate Clearance Needed"],
    "Madurai" := [
      "\U{26A1} Tower #18 (Thiruparankundram): Failure Probability 72%",
      "\U{26A1} Insulator at Melur Line: Failure Probability 54%",
      "\U{26A1} Vegetation near Usilampatti Line: Moderate Risk"],
    "Coimbatore" := [
      "\U{26A1} Tower #27 (Pollachi): Failure Probability 80%",
      "\U{26A1} Connector at Mettupalayam Line: Failure Probability 69%",
      "\U{26A1} Vegetation near Sulur Line: Immediate Clearance Needed"],
    "Trichy" := [
      "\U{26A1} Tower #11 (Srirangam): Failure Probability 70%",
      "\U{26A1} Insulator at Lalgudi Line: Failure Probability 58%",
      "\U{26A1} Vegetation near Manapparai Line: Moderate Risk"],
    "Salem" := [
      "\U{26A1} Tower #35 (Omalur): Failure Probability 76%",
      "\U{26A1} Insulator at Edappadi Line: Failure Probability 64%",
      "\U{26A1} Conductor near Attur Line: High Risk \U{2013} Immediate Action Needed"],
    "Kanchipuram" := [
      "\U{26A1} Tower #22 (Kanchipuram): Failure Probability 74%",
      "\U{26A1} Insulator at Walajabad Line: Failure Probability 60%",
      "\U{26A1} Vegetation near Uthiramerur Line: Clearance Needed Soon"]
  ]

  /** `guidance.get(district, [])`: the alert lines shown for a district. */
  function GuidanceLines(district: string): (lines: seq<string>)
    ensures district !in Guidance ==> lines == []
    ensures district in Guidance ==> lines == Guidance[district]
  {
    if district in Guidance then Guidance[district] else []
  }

  /** Every district of the data set has three alert lines. */
  lemma GuidanceCoversDistricts()
    ensures forall i :: 0 <= i < |DistrictData| ==> |GuidanceLines(DistrictData[i].0)| == 3
  {
  }
}
