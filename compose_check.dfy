/**
 * The check of compose-check.py: list the composes of one name/version,
 * largest lower-cased ID first (newest first when the stamps have equal width;
 * respin `.n.9` of a day comes before `.n.10`), resolve each one's status, date
 * and age, and keep the first compose seen (latest attempted), the first whose status is `FINISHED` (latest
 * finished) and the first whose status is `FINISHED_INCOMPLETE` (latest
 * incomplete). Each slot is filled at most once during the scan.
 */
module ComposeCheck {
  import opened Wrappers
  import opened Calendar
  import opened Lister
  import opened Resolver

  const Finished: string := "FINISHED"
  const FinishedIncomplete: string := "FINISHED_INCOMPLETE"

  /** The record kept for a compose: the `comp_info` dictionary. */
  datatype ComposeInfo = ComposeInfo(id: string, url: string, status: Option<string>, date: string, age: int)

  /** The page of a compose: `{url}/{id}/`. */
  function ComposeUrl(url: string, id: string): string
  {
    url + "/" + id + "/"
  }

  function Info(url: string, r: Resolution): ComposeInfo
  {
    ComposeInfo(r.id, ComposeUrl(url, r.id), r.status, r.date, r.age)
  }

  function Infos(url: string, rs: seq<Resolution>): seq<ComposeInfo>
  {
    seq(|rs|, i requires 0 <= i < |rs| => Info(url, rs[i]))
  }

  /** The three `latest_*` slots; an empty dictionary is `None`. */
  datatype Latest = Latest(attempted: Option<ComposeInfo>, finished: Option<ComposeInfo>, incomplete: Option<ComposeInfo>)

  /**
   * One pass of the slot updates: a slot that is still empty takes the compose
   * when it qualifies, and a filled slot never changes.
   */
  function Record(latest: Latest, c: ComposeInfo): (r: Latest)
    ensures latest.attempted.Some? ==> r.attempted == latest.attempted
    ensures latest.finished.Some? ==> r.finished == latest.finished
    ensures latest.incomplete.Some? ==> r.incomplete == latest.incomplete
    ensures latest.attempted.None? ==> r.attempted == Some(c)
    ensures latest.finished.None? ==> (r.finished == Some(c) <==> c.status == Some(Finished))
    ensures latest.finished.None? && c.status != Some(Finished) ==> r.finished.None?
    ensures latest.incomplete.None? ==> (r.incomplete == Some(c) <==> c.status == Some(FinishedIncomplete))
    ensures latest.incomplete.None? && c.status != Some(FinishedIncomplete) ==> r.incomplete.None?
  {
    Latest(
      if latest.attempted.None? then Some(c) else latest.attempted,
      if c.status == Some(Finished) && latest.finished.None? then Some(c) else latest.finished,
      if c.status == Some(FinishedIncomplete) && latest.incomplete.None? then Some(c) else latest.incomplete)
  }

  /** The slots after scanning `infos` in order, starting from three empty slots. */
  function Aggregate(infos: seq<ComposeInfo>): Latest
  {
    if infos == [] then Latest(None, None, None)
    else Record(Aggregate(infos[..|infos| - 1]), infos[|infos| - 1])
  }

  /** The position of the first compose with the given status: the reference for the slot updates. */
  function FirstWithStatus(infos: seq<ComposeInfo>, status: string): (r: Option<nat>)
    ensures r.Some? ==> r.value < |infos| && infos[r.value].status == Some(status)
                        && forall j :: 0 <= j < r.value ==> infos[j].status != Some(status)
    ensures r.None? ==> forall j :: 0 <= j < |infos| ==> infos[j].status != Some(status)
  {
    if infos == [] then None
    else if infos[0].status == Some(status) then Some(0)
    else match FirstWithStatus(infos[1..], status)
      case None => None
      case Some(k) => Some(k + 1)
  }

  function ComposeAt(infos: seq<ComposeInfo>, k: Option<nat>): Option<ComposeInfo>
    requires k.Some? ==> k.value < |infos|
  {
    if k.Some? then Some(infos[k.value]) else None
  }

  /** The first position with a status is the same in a longer scan once it exists. */
  lemma {:induction false} FirstWithStatusExtends(infos: seq<ComposeInfo>, c: ComposeInfo, status: string)
    ensures FirstWithStatus(infos + [c], status)
         == if FirstWithStatus(infos, status).Some? then FirstWithStatus(infos, status)
            else if c.status == Some(status) then Some(|infos|)
            else None
  {
    if infos != [] {
      assert (infos + [c])[0] == infos[0];
      assert (infos + [c])[1..] == infos[1..] + [c];
      FirstWithStatusExtends(infos[1..], c, status);
    } else {
      assert infos + [c] == [c];
    }
  }

  /**
   * The scan fills each slot with the first compose that qualifies: latest
   * attempted is the first compose, latest finished and latest incomplete are
   * the first composes with those statuses, and a slot stays empty when none does.
   */
  lemma {:induction false} AggregateFirstMatch(infos: seq<ComposeInfo>)
    ensures Aggregate(infos).attempted == if infos == [] then None else Some(infos[0])
    ensures Aggregate(infos).finished == ComposeAt(infos, FirstWithStatus(infos, Finished))
    ensures Aggregate(infos).incomplete == ComposeAt(infos, FirstWithStatus(infos, FinishedIncomplete))
  {
    if infos != [] {
      var init, last := infos[..|infos| - 1], infos[|infos| - 1];
      AggregateFirstMatch(init);
      assert infos == init + [last];
      FirstWithStatusExtends(init, last, Finished);
      FirstWithStatusExtends(init, last, FinishedIncomplete);
      assert init != [] ==> init[0] == infos[0];
    }
  }

  /** A slot filled part-way through the scan keeps its compose to the end. */
  lemma {:induction false} AggregateKeepsFilledSlots(infos: seq<ComposeInfo>, more: seq<ComposeInfo>)
    ensures Aggregate(infos).attempted.Some? ==> Aggregate(infos + more).attempted == Aggregate(infos).attempted
    ensures Aggregate(infos).finished.Some? ==> Aggregate(infos + more).finished == Aggregate(infos).finished
    ensures Aggregate(infos).incomplete.Some? ==> Aggregate(infos + more).incomplete == Aggregate(infos).incomplete
  {
    if more != [] {
      var init := more[..|more| - 1];
      AggregateKeepsFilledSlots(infos, init);
      assert (infos + more)[..|infos + more| - 1] == infos + init;
    } else {
      assert infos + more == infos;
    }
  }

  /**
   * A slot holds the record of the first resolution with `status`, built with
   * its page URL, or is empty when no resolution has that status.
   */
  predicate HoldsFirst(url: string, rs: seq<Resolution>, status: string, slot: Option<ComposeInfo>)
  {
    (slot.None? <==> forall k :: 0 <= k < |rs| ==> rs[k].status != Some(status))
    && (slot.Some? ==>
          slot.value.url == url + "/" + slot.value.id + "/"
          && slot.value.status == Some(status)
          && exists k :: 0 <= k < |rs| && slot.value == Info(url, rs[k])
                         && forall j :: 0 <= j < k ==> rs[j].status != Some(status))
  }

  /** The slots after a scan, stated over the resolutions the scan went through. */
  lemma AggregateSlots(url: string, rs: seq<Resolution>)
    ensures Aggregate(Infos(url, rs)).attempted == if rs == [] then None else Some(Info(url, rs[0]))
    ensures Aggregate(Infos(url, rs)).attempted.Some? ==>
              Aggregate(Infos(url, rs)).attempted.value.url == url + "/" + rs[0].id + "/"
    ensures HoldsFirst(url, rs, Finished, Aggregate(Infos(url, rs)).finished)
    ensures HoldsFirst(url, rs, FinishedIncomplete, Aggregate(Infos(url, rs)).incomplete)
  {
    var infos := Infos(url, rs);
    AggregateFirstMatch(infos);
    FirstHolds(url, rs, Finished);
    FirstHolds(url, rs, FinishedIncomplete);
  }

  lemma FirstHolds(url: string, rs: seq<Resolution>, status: string)
    ensures HoldsFirst(url, rs, status, ComposeAt(Infos(url, rs), FirstWithStatus(Infos(url, rs), status)))
  {
    var infos := Infos(url, rs);
    var k := FirstWithStatus(infos, status);
    assert forall j :: 0 <= j < |rs| ==> infos[j].status == rs[j].status;
    if k.Some? {
      assert infos[k.value] == Info(url, rs[k.value]);
    }
  }

  /** The result for one name/version pair: the `result` dictionary. */
  datatype CheckResult = CheckResult(
    url: string, name: string, version: string, description: string,
    latestAttempted: Option<ComposeInfo>,
    latestFinished: Option<ComposeInfo>,
    latestIncomplete: Option<ComposeInfo>)

  /** The saved report: the `results` dictionary (its `now` timestamp is not modelled). */
  datatype Report = Report(today: Date, composes: seq<CheckResult>)

  function Summary(url: string, name: string, version: string, latest: Latest): CheckResult
  {
    CheckResult(url, name, version, name + "-" + version + " composes",
                latest.attempted, latest.finished, latest.incomplete)
  }

  /** The slots after one more compose are the recorded slots of the scan so far. */
  lemma AggregateStep(url: string, done: seq<Resolution>, next: Resolution)
    ensures Aggregate(Infos(url, done + [next])) == Record(Aggregate(Infos(url, done)), Info(url, next))
  {
    var infos := Infos(url, done + [next]);
    assert infos == Infos(url, done) + [Info(url, next)];
    assert infos[..|done|] == Infos(url, done);
  }

  /**
   * The body of `cli` from the listing to the finished report: one scan in listing
   * order that resolves every compose and fills the three slots. The run aborts
   * with the first compose whose date cannot be found or parsed.
   */
  method Check(url: string, name: string, version: string, hrefs: seq<string>, server: Server, today: Date)
    returns (r: Result<Report, Abort>)
    requires NoRegexMeta(name) && NoRegexMeta(version) && IsCalendarDay(today)
    ensures match ResolveAll(server, name, version, today, ComposeIds(hrefs, name, version))
      case Err(e) => r == Err(e)
      case Ok(rs) => r == Ok(Report(today, [Summary(url, name, version, Aggregate(Infos(url, rs)))]))
  {
    var ids := GetComposeIds(hrefs, name, version);
    var attempted: Option<ComposeInfo> := None;
    var finished: Option<ComposeInfo> := None;
    var incomplete: Option<ComposeInfo> := None;
    ghost var done: seq<Resolution> := [];
    var i := 0;
    while i < |ids|
      invariant 0 <= i <= |ids| && |done| == i
      invariant forall k :: 0 <= k < i ==> Resolve(server, name, version, today, ids[k]) == Ok(done[k])
      invariant Latest(attempted, finished, incomplete) == Aggregate(Infos(url, done))
    {
      var id := ids[i];
      var outcome := Resolve(server, name, version, today, id);
      if outcome.Err? {
        ResolveAllFails(server, name, version, today, ids, i, done);
        r := Err(outcome.error);
        return;
      }
      var info := ComposeInfo(id, ComposeUrl(url, id), outcome.value.status, outcome.value.date, outcome.value.age);
      if attempted.None? {
        attempted := Some(info);
      }
      if info.status == Some(Finished) && finished.None? {
        finished := Some(info);
      }
      if info.status == Some(FinishedIncomplete) && incomplete.None? {
        incomplete := Some(info);
      }
      AggregateStep(url, done, outcome.value);
      ResolvedExtend(server, name, version, today, ids, done, outcome.value);
      done := done + [outcome.value];
      i := i + 1;
    }
    ResolveAllSucceeds(server, name, version, today, ids, done);
    r := Ok(Report(today, [Summary(url, name, version, Latest(attempted, finished, incomplete))]));
  }
}
