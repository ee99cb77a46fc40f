/** The `PingSite` record: a monitored endpoint with a final name and
    address and a mutable latency baseline. The Java setters become functions
    returning the updated record. */
module PingSites {

  datatype PingSite = PingSite(
    name: string,
    address: string,
    avgLatency: real,
    latencyStdDeviation: real,
    deviationTolerance: int)

  /** The constructor stores its five arguments unchanged. */
  function NewPingSite(siteName: string, siteAddress: string, siteAvgLatency: real,
                       siteLatencyStdDeviation: real, siteDeviationTolerance: int): (site: PingSite)
    ensures site.name == siteName && site.address == siteAddress
    ensures site.avgLatency == siteAvgLatency
    ensures site.latencyStdDeviation == siteLatencyStdDeviation
    ensures site.deviationTolerance == siteDeviationTolerance
  {
    PingSite(siteName, siteAddress, siteAvgLatency, siteLatencyStdDeviation, siteDeviationTolerance)
  }

  /** `setAvgLatency`: only the average changes. */
  function SetAvgLatency(site: PingSite, siteAvgLatency: real): (r: PingSite)
    ensures r.avgLatency == siteAvgLatency
    ensures r.name == site.name && r.address == site.address
    ensures r.latencyStdDeviation == site.latencyStdDeviation
    ensures r.deviationTolerance == site.deviationTolerance
  {
    site.(avgLatency := siteAvgLatency)
  }

  /** `setLatencyStdDeviation`: only the standard deviation changes. */
  function SetLatencyStdDeviation(site: PingSite, siteLatencyStdDeviation: real): (r: PingSite)
    ensures r.latencyStdDeviation == siteLatencyStdDeviation
    ensures r.name == site.name && r.address == site.address
    ensures r.avgLatency == site.avgLatency
    ensures r.deviationTolerance == site.deviationTolerance
  {
    site.(latencyStdDeviation := siteLatencyStdDeviation)
  }

  /** `setDeviationTolerance`: only the tolerance changes. */
  function SetDeviationTolerance(site: PingSite, siteDeviationTolerance: int): (r: PingSite)
    ensures r.deviationTolerance == siteDeviationTolerance
    ensures r.name == site.name && r.address == site.address
    ensures r.avgLatency == site.avgLatency
    ensures r.latencyStdDeviation == site.latencyStdDeviation
  {
    site.(deviationTolerance := siteDeviationTolerance)
  }

  /** A call of one of the three setters. */
  datatype SiteUpdate =
    | UpdateAvgLatency(avg: real)
    | UpdateLatencyStdDeviation(stdDev: real)
    | UpdateDeviationTolerance(tolerance: int)

  function ApplyUpdate(site: PingSite, u: SiteUpdate): PingSite {
    match u
    case UpdateAvgLatency(v) => SetAvgLatency(site, v)
    case UpdateLatencyStdDeviation(v) => SetLatencyStdDeviation(site, v)
    case UpdateDeviationTolerance(v) => SetDeviationTolerance(site, v)
  }

  function ApplyUpdates(site: PingSite, us: seq<SiteUpdate>): PingSite
    decreases |us|
  {
    if |us| == 0 then site else ApplyUpdates(ApplyUpdate(site, us[0]), us[1..])
  }

  /** `NAME` and `ADDRESS` are final: no sequence of setter calls changes
      them, and each setter call leaves the fields it does not set alone. */
  lemma {:induction false} NameAndAddressAreFinal(site: PingSite, us: seq<SiteUpdate>)
    ensures ApplyUpdates(site, us).name == site.name
    ensures ApplyUpdates(site, us).address == site.address
    decreases |us|
  {
    if |us| > 0 {
      NameAndAddressAreFinal(ApplyUpdate(site, us[0]), us[1..]);
    }
  }
}
