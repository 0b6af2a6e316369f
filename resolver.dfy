/**
 * Status and date resolution for one compose (`compose_status` in both scripts,
 * and the date fallback and age computation of their `cli` loops).
 *
 * The two downloads of `compose_status` are given as what they produced: the
 * decoded text of `{url}/{id}/STATUS` and the decoded JSON document of
 * `{url}/{id}/compose/metadata/composeinfo.json`, each absent when the
 * download, the decoding or the JSON parsing raised.
 */
module Resolver {
  import opened Wrappers
  import opened Ascii
  import opened Calendar
  import opened DateText
  import opened Lister

  /** A decoded JSON document, as `json.loads` builds it. */
  datatype Json =
    | JNull
    | JBool(b: bool)
    | JNumber(n: int)
    | JString(s: string)
    | JArray(items: seq<Json>)
    | JObject(members: seq<(string, Json)>)

  /** What the compose server holds, by compose ID; a missing ID is a download that failed. */
  datatype Server = Server(statusFiles: map<string, string>, metadataFiles: map<string, Json>)

  /** The value of `key` in an object's member list; when a key repeats, the last one wins, as in a Python `dict`. */
  function Get(members: seq<(string, Json)>, key: string): (r: Option<Json>)
    ensures r.None? <==> forall i :: 0 <= i < |members| ==> members[i].0 != key
    ensures r.Some? ==> exists i :: 0 <= i < |members| && members[i] == (key, r.value)
                                    && forall j :: i < j < |members| ==> members[j].0 != key
  {
    if members == [] then None
    else if members[|members| - 1].0 == key then Some(members[|members| - 1].1)
    else Get(members[..|members| - 1], key)
  }

  /** `j[key]`: only an object has keys; subscripting anything else with a string raises. */
  function Subscript(j: Json, key: string): (r: Option<Json>)
    ensures r.Some? <==> j.JObject? && exists i :: 0 <= i < |j.members| && j.members[i].0 == key
  {
    if j.JObject? then Get(j.members, key) else None
  }

  /** The date of the compose, `composeattrs["payload"]["compose"]["date"]`, or `None` where that raises. */
  function MetadataDate(doc: Option<Json>): (r: Option<Json>)
    ensures r.Some? ==> r.value != JNull
    ensures r.Some? ==> doc.Some? && exists payload, compose ::
      Subscript(doc.value, "payload") == Some(payload) && Subscript(payload, "compose") == Some(compose)
      && Subscript(compose, "date") == r
  {
    if doc.None? then None
    else
      match Subscript(doc.value, "payload")
      case None => None
      case Some(payload) =>
        match Subscript(payload, "compose")
        case None => None
        case Some(compose) =>
          match Subscript(compose, "date")
          case None => None
          case Some(date) => if date == JNull then None else Some(date)
  }

  /** A metadata document that holds a date at `payload.compose.date` yields it. */
  lemma MetadataDateFound(doc: Json, payload: Json, compose: Json, date: Json)
    requires Subscript(doc, "payload") == Some(payload)
    requires Subscript(payload, "compose") == Some(compose)
    requires Subscript(compose, "date") == Some(date) && date != JNull
    ensures MetadataDate(Some(doc)) == Some(date)
  {
  }

  /** `compose_status`: the STATUS text stripped of trailing whitespace, and the metadata date. */
  function ComposeStatus(server: Server, id: string): (r: (Option<string>, Option<Json>))
    ensures r.0.Some? <==> id in server.statusFiles
    ensures r.0.Some? ==> r.0.value <= server.statusFiles[id]
                          && (r.0.value == [] || !IsSpace(r.0.value[|r.0.value| - 1]))
                          && forall i :: |r.0.value| <= i < |server.statusFiles[id]| ==> IsSpace(server.statusFiles[id][i])
    ensures r.1 == MetadataDate(if id in server.metadataFiles then Some(server.metadataFiles[id]) else None)
  {
    var status := if id in server.statusFiles then Some(RStrip(server.statusFiles[id])) else None;
    var date := MetadataDate(if id in server.metadataFiles then Some(server.metadataFiles[id]) else None);
    (status, date)
  }

  /** What `.*$` matches: anything without a line break, optionally followed by one final line break. */
  predicate RestOfLine(s: string)
  {
    '\n' !in s || (s[|s| - 1] == '\n' && '\n' !in s[..|s| - 1])
  }

  /**
   * The date embedded in a compose ID: group 1 of `^{name}-{version}-(\d{8})\..*$`,
   * eight digits right after the prefix and followed by a dot.
   */
  function IdDate(id: string, name: string, version: string): (r: Option<string>)
    ensures r.Some? ==> |r.value| == 8 && AllDigits(r.value)
    ensures r.Some? ==> exists rest :: RestOfLine(rest) && id == ComposePrefix(name, version) + r.value + "." + rest
  {
    var prefix := ComposePrefix(name, version);
    var n := |prefix|;
    if prefix <= id && |id| >= n + 9 && AllDigits(id[n..n + 8]) && id[n + 8] == '.' && RestOfLine(id[n + 9..])
    then
      assert id == prefix + id[n..n + 8] + "." + id[n + 9..];
      Some(id[n..n + 8])
    else None
  }

  /** The ID of a compose of the series whose stamp starts with an eight-digit date yields that date. */
  lemma IdDateOfStampedId(name: string, version: string, date: string, rest: string)
    requires |date| == 8 && AllDigits(date) && RestOfLine(rest)
    ensures IdDate(ComposePrefix(name, version) + date + "." + rest, name, version) == Some(date)
  {
    var prefix := ComposePrefix(name, version);
    var id := prefix + date + "." + rest;
    var n := |prefix|;
    assert id[n..n + 8] == date;
    assert id[n + 9..] == rest;
  }

  /** Why a run ends early. */
  datatype Abort =
    /** No date from the metadata nor from the ID: the warning call `logger.notice` does not exist and raises. */
    | NoDateFound(id: string)
    /** The metadata date is not a string, which `strptime` refuses with `TypeError`. */
    | DateNotText(id: string, date: Json)
    /** The date text is not a `%Y%m%d` calendar day: `strptime` raises `ValueError`. */
    | BadDate(id: string, text: string)

  /** The per-compose facts that the loop of both scripts computes and logs. */
  datatype Resolution = Resolution(id: string, status: Option<string>, date: string, age: int)

  /**
   * One pass of the loop body of `cli`: fetch the status and date, fall back to
   * the date in the ID, parse it and compute the age in days relative to `today`.
   */
  function Resolve(server: Server, name: string, version: string, today: Date, id: string): (r: Result<Resolution, Abort>)
    requires IsCalendarDay(today)
    ensures r.Ok? ==> r.value.id == id && r.value.status == ComposeStatus(server, id).0
    ensures r.Ok? ==> ParseYmd(r.value.date).Some?
                      && r.value.age == DaysBetween(today, ParseYmd(r.value.date).value)
    ensures r.Ok? ==> ComposeStatus(server, id).1 == Some(JString(r.value.date))
                      || (ComposeStatus(server, id).1 == None && IdDate(id, name, version) == Some(r.value.date))
    ensures ComposeStatus(server, id).1 == None && IdDate(id, name, version) == None
            ==> r == Err(NoDateFound(id))
    ensures ComposeStatus(server, id).1.Some? && !ComposeStatus(server, id).1.value.JString?
            ==> r == Err(DateNotText(id, ComposeStatus(server, id).1.value))
  {
    var (status, metadataDate) := ComposeStatus(server, id);
    var date :=
      if metadataDate.Some? then metadataDate
      else match IdDate(id, name, version) { case Some(t) => Some(JString(t)) case None => None };
    if date.None? then Err(NoDateFound(id))
    else if !date.value.JString? then Err(DateNotText(id, date.value))
    else
      match ParseYmd(date.value.s)
      case None => Err(BadDate(id, date.value.s))
      case Some(day) => Ok(Resolution(id, status, date.value.s, DaysBetween(today, day)))
  }

  /** The metadata date wins over the date in the ID whenever the metadata has one. */
  lemma MetadataDatePrecedes(server: Server, name: string, version: string, today: Date, id: string, text: string)
    requires IsCalendarDay(today)
    requires ComposeStatus(server, id).1 == Some(JString(text))
    ensures Resolve(server, name, version, today, id).Ok? <==> ParseYmd(text).Some?
    ensures Resolve(server, name, version, today, id).Ok? ==> Resolve(server, name, version, today, id).value.date == text
    ensures Resolve(server, name, version, today, id).Err? ==> Resolve(server, name, version, today, id) == Err(BadDate(id, text))
  {
  }

  /**
   * Without a metadata date, the date in the ID is used: resolution succeeds
   * iff its eight digits name a calendar day, keeps that text, and otherwise
   * aborts with `BadDate`.
   */
  lemma IdDateFallback(server: Server, name: string, version: string, today: Date, id: string, text: string)
    requires IsCalendarDay(today)
    requires ComposeStatus(server, id).1 == None && IdDate(id, name, version) == Some(text)
    ensures Resolve(server, name, version, today, id).Ok? <==> IsCalendarDay(SplitYmd(text))
    ensures Resolve(server, name, version, today, id).Ok? ==> Resolve(server, name, version, today, id).value.date == text
    ensures Resolve(server, name, version, today, id).Err? ==> Resolve(server, name, version, today, id) == Err(BadDate(id, text))
  {
    EightDigitDates(text);
  }

  /**
   * Running steps in order until one raises: the values of all of them, or the
   * error of the first one that fails.
   */
  function Collect<T, E>(rs: seq<Result<T, E>>): (r: Result<seq<T>, E>)
    ensures r.Ok? ==> |r.value| == |rs| && forall i :: 0 <= i < |rs| ==> rs[i] == Ok(r.value[i])
    ensures r.Err? ==> exists k :: 0 <= k < |rs| && rs[k] == Err(r.error) && forall j :: 0 <= j < k ==> rs[j].Ok?
  {
    if rs == [] then Ok([])
    else
      var init := rs[..|rs| - 1];
      assert forall i :: 0 <= i < |init| ==> init[i] == rs[i];
      match Collect(init)
      case Err(e) => Err(e)
      case Ok(done) =>
        match rs[|rs| - 1]
        case Err(e) => Err(e)
        case Ok(last) => Ok(done + [last])
  }

  /** Once a prefix of the steps fails, the whole run fails the same way. */
  lemma {:induction false} CollectStopsAtFirstError<T, E>(rs: seq<Result<T, E>>, n: nat)
    requires n <= |rs| && Collect(rs[..n]).Err?
    ensures Collect(rs) == Collect(rs[..n])
    decreases |rs| - n
  {
    if n < |rs| {
      assert rs[..n + 1][..n] == rs[..n];
      CollectStopsAtFirstError(rs, n + 1);
    } else {
      assert rs[..n] == rs;
    }
  }

  /** The outcome of the loop body for each compose, in order. */
  function Resolutions(server: Server, name: string, version: string, today: Date, ids: seq<string>): seq<Result<Resolution, Abort>>
    requires IsCalendarDay(today)
  {
    seq(|ids|, i requires 0 <= i < |ids| => Resolve(server, name, version, today, ids[i]))
  }

  /**
   * Resolving the composes in order: the resolutions of all of them, or the
   * abort of the first one that fails (the scripts stop there).
   */
  function ResolveAll(server: Server, name: string, version: string, today: Date, ids: seq<string>): Result<seq<Resolution>, Abort>
    requires IsCalendarDay(today)
  {
    Collect(Resolutions(server, name, version, today, ids))
  }

  /** Composes that all resolve give their resolutions, in order. */
  lemma ResolveAllSucceeds(server: Server, name: string, version: string, today: Date, ids: seq<string>, done: seq<Resolution>)
    requires IsCalendarDay(today) && |done| == |ids|
    requires forall k :: 0 <= k < |ids| ==> Resolve(server, name, version, today, ids[k]) == Ok(done[k])
    ensures ResolveAll(server, name, version, today, ids) == Ok(done)
  {
    var rs := Resolutions(server, name, version, today, ids);
    assert forall k :: 0 <= k < |rs| ==> rs[k] == Ok(done[k]);
    CollectAllOk(rs, done);
  }

  lemma {:induction false} CollectAllOk<T, E>(rs: seq<Result<T, E>>, done: seq<T>)
    requires |rs| == |done| && forall k :: 0 <= k < |rs| ==> rs[k] == Ok(done[k])
    ensures Collect(rs) == Ok(done)
  {
    if rs != [] {
      var n := |rs| - 1;
      CollectAllOk(rs[..n], done[..n]);
      assert done == done[..n] + [done[n]];
    }
  }

  /** The first compose that fails to resolve is the abort of the whole scan. */
  lemma ResolveAllFails(server: Server, name: string, version: string, today: Date, ids: seq<string>, i: nat, done: seq<Resolution>)
    requires IsCalendarDay(today) && i < |ids| && |done| == i
    requires forall k :: 0 <= k < i ==> Resolve(server, name, version, today, ids[k]) == Ok(done[k])
    requires Resolve(server, name, version, today, ids[i]).Err?
    ensures ResolveAll(server, name, version, today, ids) == Err(Resolve(server, name, version, today, ids[i]).error)
  {
    var rs := Resolutions(server, name, version, today, ids);
    var prefix := rs[..i];
    assert forall k :: 0 <= k < i ==> prefix[k] == Ok(done[k]);
    CollectAllOk(prefix, done);
    assert rs[..i + 1][..i] == prefix;
    CollectStopsAtFirstError(rs, i + 1);
  }

  /** One more compose that resolves extends the resolutions of the composes before it. */
  lemma ResolvedExtend(server: Server, name: string, version: string, today: Date, ids: seq<string>, done: seq<Resolution>, next: Resolution)
    requires IsCalendarDay(today) && |done| < |ids|
    requires forall k :: 0 <= k < |done| ==> Resolve(server, name, version, today, ids[k]) == Ok(done[k])
    requires Resolve(server, name, version, today, ids[|done|]) == Ok(next)
    ensures forall k :: 0 <= k < |done| + 1 ==> Resolve(server, name, version, today, ids[k]) == Ok((done + [next])[k])
  {
    forall k | 0 <= k < |done| + 1
      ensures Resolve(server, name, version, today, ids[k]) == Ok((done + [next])[k])
    {
      if k < |done| {
        assert (done + [next])[k] == done[k];
      }
    }
  }
}
