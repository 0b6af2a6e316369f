/**
 * The earlier draft, eln-check.py: the same listing, status and date logic as
 * compose-check.py, but its `cli` loop only computes and logs each compose's
 * status, date and age. The three `latest_*` records it sets up are never
 * updated (the aggregation is a commented-out stub), so they keep their
 * initial empty entries.
 */
module ElnCheck {
  import opened Wrappers
  import opened Calendar
  import opened Lister
  import opened Resolver

  const DefaultName: string := "Fedora-ELN"
  const DefaultVersion: string := "Rawhide"

  /** The default series is a literal pattern. */
  lemma DefaultSeriesIsLiteral()
    ensures NoRegexMeta(DefaultName) && NoRegexMeta(DefaultVersion)
    ensures ComposePrefix(DefaultName, DefaultVersion) == "Fedora-ELN-Rawhide-"
  {
  }

  /** `get_composes`, whose name and version default to Fedora ELN's Rawhide series. */
  method GetComposes(hrefs: seq<string>, name: string := DefaultName, version: string := DefaultVersion)
    returns (composes: seq<string>)
    requires NoRegexMeta(name) && NoRegexMeta(version)
    ensures composes == ComposeIds(hrefs, name, version)
  {
    composes := GetComposeIds(hrefs, name, version);
  }

  /** A `{"compose": ..., "date": ...}` record. */
  datatype Slot = Slot(compose: Option<string>, date: Option<string>)

  /** What one run leaves behind: the three records and the per-compose log lines. */
  datatype Run = Run(latestAttempted: Slot, latestFinished: Slot, latestIncomplete: Slot, log: seq<Resolution>)

  /**
   * The body of `cli`: list the composes, then resolve each in turn, logging
   * its status, date and age; the run aborts with the first compose whose date
   * cannot be found or parsed.
   */
  method Check(name: string, version: string, hrefs: seq<string>, server: Server, today: Date)
    returns (r: Result<Run, Abort>)
    requires NoRegexMeta(name) && NoRegexMeta(version) && IsCalendarDay(today)
    ensures match ResolveAll(server, name, version, today, ComposeIds(hrefs, name, version))
      case Err(e) => r == Err(e)
      case Ok(rs) => r == Ok(Run(Slot(None, None), Slot(None, None), Slot(None, None), rs))
    ensures r.Ok? ==> r.value.latestAttempted == r.value.latestFinished == r.value.latestIncomplete == Slot(None, None)
  {
    var latestAttempted := Slot(None, None);
    var latestFinished := Slot(None, None);
    var latestIncomplete := Slot(None, None);
    var composes := GetComposes(hrefs, name, version);
    var log: seq<Resolution> := [];
    var i := 0;
    while i < |composes|
      invariant 0 <= i <= |composes| && |log| == i
      invariant forall k :: 0 <= k < i ==> Resolve(server, name, version, today, composes[k]) == Ok(log[k])
    {
      var outcome := Resolve(server, name, version, today, composes[i]);
      if outcome.Err? {
        ResolveAllFails(server, name, version, today, composes, i, log);
        r := Err(outcome.error);
        return;
      }
      ResolvedExtend(server, name, version, today, composes, log, outcome.value);
      log := log + [outcome.value];
      i := i + 1;
    }
    ResolveAllSucceeds(server, name, version, today, composes, log);
    r := Ok(Run(latestAttempted, latestFinished, latestIncomplete, log));
  }
}
