/**
  `execute_scraping_job` and `main`: one run of the scheduler. The run reads the active
  configurations, keeps those that are due, and runs a job for each in order; a job scrapes its
  board, formats the articles and delivers them, then records its outcome on the configuration
  and in the execution log whatever happened.

  The configuration store (a Firestore collection and the executions log) is the `Store`
  class. The bot token is `Some` when the secret could be read. The listing page of each board,
  already parsed, is `pages(board)`; the Telegram replies are `replies(k)` for the `k`-th request
  of the run. All of a run's timestamps are the one clock reading `now`, in minutes.
*/
module Jobs {
  import opened Wrappers
  import Seqs
  import Schedule
  import Selection
  import Chunking
  import Delivery

  const DefaultPostCount: int := 20
  const UnknownName: string := "Unknown"

  /** 'success', 'no_articles', 'error'. */
  datatype Status = Success | NoArticles | Failed

  /** Why a job failed; the message text the source builds from it is not modelled. */
  datatype JobError =
    | ScrapingError(scrape: Selection.ScrapeError)      // "PTT scraping error: ..."
    | DeliveryError(delivery: Delivery.DeliveryError)   // "Telegram delivery error: ..."
    | MissingField(field: string)                       // "Unexpected error: ..." from a KeyError

  /** A document of the configurations collection, with its document id. */
  datatype Config = Config(
    id: string,
    name: Option<string>,
    board: Option<string>,          // pttBoard
    postCount: Option<int>,
    keywords: Option<seq<string>>,
    chatId: Option<string>,         // telegramChatId
    schedule: Schedule.Schedule,
    active: bool,                   // isActive
    lastExecuted: Option<int>,
    lastStatus: Option<Status>,     // lastExecutionStatus
    lastError: Option<JobError>,    // lastExecutionMessage
    updatedAt: Option<int>)

  /** A document of the executions collection; the duration is not modelled. */
  datatype Record = Record(configId: string, executedAt: int, status: Status, found: nat, sent: nat, error: Option<JobError>)

  /** What `execute_scraping_job` returns. */
  datatype JobResult = JobResult(configId: string, name: string, status: Status, found: nat, sent: nat, error: Option<JobError>)

  /** A job's result with the delivery it made and the request cursor after it. */
  datatype JobOutcome = JobOutcome(result: JobResult, trace: seq<Delivery.Event>, cursor: nat)

  /** What `main` responds. */
  datatype Response =
    | TokenUnavailable          // success: false, no results
    | NoActiveConfigurations    // success: true, "No active configurations found"
    | Completed(results: seq<JobResult>, successful: nat, totalSent: nat)

  // The store's two writes.

  /** `update_configuration_status`: the document with that id gets the outcome; any other, or none, is untouched. */
  function UpdateStatus(configs: seq<Config>, id: string, status: Status, error: Option<JobError>, now: int): seq<Config> {
    seq(|configs|, i requires 0 <= i < |configs| =>
      if configs[i].id == id then
        configs[i].(lastExecuted := Some(now), lastStatus := Some(status), lastError := error, updatedAt := Some(now))
      else configs[i])
  }

  function RecordOf(r: JobResult, now: int): Record {
    Record(r.configId, now, r.status, r.found, r.sent, r.error)
  }

  class Store {
    var configs: seq<Config>
    var records: seq<Record>

    constructor(configs: seq<Config>)
      ensures this.configs == configs && records == []
    {
      this.configs := configs;
      records := [];
    }

    method UpdateConfigurationStatus(id: string, status: Status, error: Option<JobError>, now: int)
      modifies this
      ensures configs == UpdateStatus(old(configs), id, status, error, now)
      ensures records == old(records)
    {
      configs := UpdateStatus(configs, id, status, error, now);
    }

    method CreateExecutionRecord(r: Record)
      modifies this
      ensures records == old(records) + [r]
      ensures configs == old(configs)
    {
      records := records + [r];
    }
  }

  // One job.

  /** `execute_scraping_job` on a configuration, from request `cursor`. */
  function RunJob(c: Config, pages: string -> Option<seq<Selection.Entry>>, replies: nat -> Delivery.Reply, cursor: nat): JobOutcome {
    var name := c.name.GetOr(UnknownName);
    if c.board.None? then
      JobOutcome(JobResult(c.id, name, Failed, 0, 0, Some(MissingField("pttBoard"))), [], cursor)
    else if c.chatId.None? then
      JobOutcome(JobResult(c.id, name, Failed, 0, 0, Some(MissingField("telegramChatId"))), [], cursor)
    else
      var board := c.board.value;
      match Selection.Scrape(pages(board), board, c.postCount.GetOr(DefaultPostCount), c.keywords.GetOr([]))
      case Err(e) => JobOutcome(JobResult(c.id, name, Failed, 0, 0, Some(ScrapingError(e))), [], cursor)
      case Ok(articles) =>
        if |articles| == 0 then JobOutcome(JobResult(c.id, name, NoArticles, 0, 0, None), [], cursor)
        else
          var d := Delivery.Deliver(Chunking.Messages(articles, board), replies, cursor);
          if d.error.Some? then
            JobOutcome(JobResult(c.id, name, Failed, |articles|, 0, Some(DeliveryError(d.error.value))), d.trace, d.cursor)
          else
            JobOutcome(JobResult(c.id, name, Success, |articles|, |articles|, None), d.trace, d.cursor)
  }

  /**
    `execute_scraping_job`: the outcome, then, as its `finally` does whatever happened, one
    status update of the configuration and one execution record.
  */
  method ExecuteJob(store: Store, config: Config, pages: string -> Option<seq<Selection.Entry>>,
                    replies: nat -> Delivery.Reply, cursor: nat, now: int)
    returns (result: JobResult, trace: seq<Delivery.Event>, next: nat)
    modifies store
    ensures JobOutcome(result, trace, next) == RunJob(config, pages, replies, cursor)
    ensures store.configs == UpdateStatus(old(store.configs), config.id, result.status, result.error, now)
    ensures store.records == old(store.records) + [RecordOf(result, now)]
  {
    var name := config.name.GetOr(UnknownName);
    var found: nat := 0;
    var sent: nat := 0;
    var status := Failed;
    var error: Option<JobError> := None;
    trace := [];
    next := cursor;
    if config.board.None? {
      error := Some(MissingField("pttBoard"));
    } else {
      var board := config.board.value;
      var postCount := config.postCount.GetOr(DefaultPostCount);
      var keywords := config.keywords.GetOr([]);
      if config.chatId.None? {
        error := Some(MissingField("telegramChatId"));
      } else {
        var scraped := Selection.ScrapeArticles(pages(board), board, postCount, keywords);
        if scraped.Err? {
          error := Some(ScrapingError(scraped.error));
        } else {
          var articles := scraped.value;
          found := |articles|;
          if found == 0 {
            status := NoArticles;
          } else {
            var messages := Chunking.FormatArticles(articles, board);
            var d := Delivery.SendMessages(messages, replies, cursor);
            trace, next := d.trace, d.cursor;
            if d.error.Some? {
              error := Some(DeliveryError(d.error.value));
            } else {
              sent := found;
              status := Success;
            }
          }
        }
      }
    }
    result := JobResult(config.id, name, status, found, sent, error);
    store.UpdateConfigurationStatus(config.id, status, error, now);
    store.CreateExecutionRecord(RecordOf(result, now));
  }

  /**
    The outcome of a job. It reports the configuration it ran. `success` means every message
    was delivered, once and in order, and every article found was sent, with no error.
    `no_articles` means nothing was found, nothing sent and Telegram never called. Otherwise
    the job failed with an error and sent nothing; a missing board or chat, or a failed scrape,
    reaches Telegram not at all. The request cursor advances by the requests made.
  */
  lemma RunJobOutcome(c: Config, pages: string -> Option<seq<Selection.Entry>>, replies: nat -> Delivery.Reply, cursor: nat)
    ensures var o := RunJob(c, pages, replies, cursor);
      && o.result.configId == c.id && o.result.name == c.name.GetOr(UnknownName)
      && o.cursor == cursor + Delivery.Requests(o.trace)
      && (o.result.status == Success <==> o.result.error.None? && o.result.found > 0)
      && (o.result.status == Success ==>
            o.result.sent == o.result.found &&
            Delivery.Sent(o.trace) == Chunking.Messages(
              Selection.Scrape(pages(c.board.value), c.board.value, c.postCount.GetOr(DefaultPostCount), c.keywords.GetOr([])).value,
              c.board.value))
      && (o.result.status == NoArticles <==> o.result.error.None? && o.result.found == 0)
      && (o.result.status == NoArticles ==> o.result.sent == 0 && o.trace == [] && o.cursor == cursor)
      && (o.result.status == Failed <==> o.result.error.Some?)
      && (o.result.status == Failed ==> o.result.sent == 0)
      && (c.board.None? || c.chatId.None? ==> o.result.status == Failed && o.trace == [])
  {
    var o := RunJob(c, pages, replies, cursor);
    if c.board.Some? && c.chatId.Some? {
      var board := c.board.value;
      var scraped := Selection.Scrape(pages(board), board, c.postCount.GetOr(DefaultPostCount), c.keywords.GetOr([]));
      if scraped.Ok? && |scraped.value| > 0 {
        Delivery.DeliverSpec(Chunking.Messages(scraped.value, board), replies, cursor);
      }
    }
  }

  // The run.

  /** The configurations listed by `where('isActive', '==', True)`, in store order. */
  function Active(configs: seq<Config>): seq<Config> {
    if configs == [] then []
    else Active(configs[..|configs| - 1]) + (if configs[|configs| - 1].active then [configs[|configs| - 1]] else [])
  }

  /** One more listed configuration: it joins the active ones exactly when it is active. */
  lemma ActiveStep(listed: seq<Config>, i: nat)
    requires i < |listed|
    ensures Active(listed[..i + 1]) == Active(listed[..i]) + (if listed[i].active then [listed[i]] else [])
  {
    Seqs.SnocPrefix(listed[..i], listed[i]);
    assert listed[..i + 1] == listed[..i] + [listed[i]];
  }

  /** The configurations `is_configuration_due` accepts at `now`, in order. */
  function Due(configs: seq<Config>, now: int): seq<Config> {
    if configs == [] then []
    else
      var c := configs[|configs| - 1];
      Due(configs[..|configs| - 1], now) + (if Schedule.IsDue(c.schedule, c.lastExecuted, now) then [c] else [])
  }

  /** The jobs of the due configurations, run in order from request `cursor`. */
  function RunJobs(due: seq<Config>, pages: string -> Option<seq<Selection.Entry>>, replies: nat -> Delivery.Reply, cursor: nat)
    : (batch: (seq<JobResult>, nat))
    ensures |batch.0| == |due|
  {
    if due == [] then ([], cursor)
    else
      var o := RunJob(due[0], pages, replies, cursor);
      var rest := RunJobs(due[1..], pages, replies, o.cursor);
      ([o.result] + rest.0, rest.1)
  }

  /** One more active configuration: it joins the due ones exactly when it is due. */
  lemma DueStep(configs: seq<Config>, i: nat, now: int)
    requires i < |configs|
    ensures Due(configs[..i + 1], now) ==
      Due(configs[..i], now) + (if Schedule.IsDue(configs[i].schedule, configs[i].lastExecuted, now) then [configs[i]] else [])
  {
    Seqs.SnocPrefix(configs[..i], configs[i]);
    assert configs[..i + 1] == configs[..i] + [configs[i]];
  }

  function Successful(results: seq<JobResult>): nat {
    if results == [] then 0 else Successful(results[..|results| - 1]) + (if results[|results| - 1].status == Success then 1 else 0)
  }

  function TotalSent(results: seq<JobResult>): nat {
    if results == [] then 0 else TotalSent(results[..|results| - 1]) + results[|results| - 1].sent
  }

  /** The status updates of the results, applied in order. */
  function ApplyUpdates(configs: seq<Config>, results: seq<JobResult>, now: int): (updated: seq<Config>)
    ensures |updated| == |configs|
  {
    if results == [] then configs
    else
      var r := results[|results| - 1];
      UpdateStatus(ApplyUpdates(configs, results[..|results| - 1], now), r.configId, r.status, r.error, now)
  }

  function RecordsOf(results: seq<JobResult>, now: int): seq<Record> {
    if results == [] then [] else RecordsOf(results[..|results| - 1], now) + [RecordOf(results[|results| - 1], now)]
  }

  /** `main`'s response for a store holding `configs`. */
  function Run(configs: seq<Config>, token: Option<string>, pages: string -> Option<seq<Selection.Entry>>,
               replies: nat -> Delivery.Reply, now: int): Response
  {
    if token.None? then TokenUnavailable
    else if Active(configs) == [] then NoActiveConfigurations
    else
      var results := RunJobs(Due(Active(configs), now), pages, replies, 0).0;
      Completed(results, Successful(results), TotalSent(results))
  }

  /** One step of the job loop: `RunJobs` from the `i`-th due configuration. */
  lemma RunJobsStep(due: seq<Config>, i: nat, pages: string -> Option<seq<Selection.Entry>>, replies: nat -> Delivery.Reply, cursor: nat)
    requires i < |due|
    ensures var o := RunJob(due[i], pages, replies, cursor);
      var rest := RunJobs(due[i + 1..], pages, replies, o.cursor);
      RunJobs(due[i..], pages, replies, cursor) == ([o.result] + rest.0, rest.1)
  {
    assert due[i..][0] == due[i] && due[i..][1..] == due[i + 1..];
  }

  /** The job loop of `main`: the due configurations' jobs, in order, from the run's first request. */
  method RunDueJobs(store: Store, due: seq<Config>, pages: string -> Option<seq<Selection.Entry>>,
                    replies: nat -> Delivery.Reply, now: int)
    returns (results: seq<JobResult>)
    modifies store
    ensures results == RunJobs(due, pages, replies, 0).0
    ensures store.records == old(store.records) + RecordsOf(results, now)
    ensures store.configs == ApplyUpdates(old(store.configs), results, now)
  {
    ghost var all := RunJobs(due, pages, replies, 0).0;
    ghost var records0, configs0 := store.records, store.configs;
    results := [];
    var cursor := 0;
    assert due[0..] == due;
    assert [] + all == all;
    for i := 0 to |due|
      invariant all == results + RunJobs(due[i..], pages, replies, cursor).0
      invariant Logged(store.records, store.configs, records0, configs0, results, now)
    {
      JobsStep(all, results, due, i, pages, replies, cursor);
      ghost var before, records, configs := results, store.records, store.configs;
      var result, trace, next := ExecuteJob(store, due[i], pages, replies, cursor, now);
      LoggedStep(records, configs, records0, configs0, before, result, now);
      results := results + [result];
      cursor := next;
    }
    assert due[|due|..] == [];
    assert results + [] == results;
  }

  /** The store holds the initial records and configurations with the writes of `results` applied. */
  ghost predicate Logged(records: seq<Record>, configs: seq<Config>, records0: seq<Record>, configs0: seq<Config>,
                         results: seq<JobResult>, now: int)
  {
    records == records0 + RecordsOf(results, now) && configs == ApplyUpdates(configs0, results, now)
  }

  /** The writes of one more job keep the store `Logged`. */
  lemma LoggedStep(records: seq<Record>, configs: seq<Config>, records0: seq<Record>, configs0: seq<Config>,
                   results: seq<JobResult>, r: JobResult, now: int)
    requires Logged(records, configs, records0, configs0, results, now)
    ensures Logged(records + [RecordOf(r, now)], UpdateStatus(configs, r.configId, r.status, r.error, now),
                   records0, configs0, results + [r], now)
  {
    ResultsSnoc(results, r, now);
  }

  /** One turn of the job loop keeps `all` split at the next configuration. */
  lemma JobsStep(all: seq<JobResult>, results: seq<JobResult>, due: seq<Config>, i: nat,
                 pages: string -> Option<seq<Selection.Entry>>, replies: nat -> Delivery.Reply, cursor: nat)
    requires i < |due| && all == results + RunJobs(due[i..], pages, replies, cursor).0
    ensures var o := RunJob(due[i], pages, replies, cursor);
      all == (results + [o.result]) + RunJobs(due[i + 1..], pages, replies, o.cursor).0
  {
    var o := RunJob(due[i], pages, replies, cursor);
    RunJobsStep(due, i, pages, replies, cursor);
    Seqs.AssociateOne(results, o.result, RunJobs(due[i + 1..], pages, replies, o.cursor).0);
  }

  lemma ResultsSnoc(results: seq<JobResult>, r: JobResult, now: int)
    ensures RecordsOf(results + [r], now) == RecordsOf(results, now) + [RecordOf(r, now)]
    ensures forall configs ::
      ApplyUpdates(configs, results + [r], now) ==
      UpdateStatus(ApplyUpdates(configs, results, now), r.configId, r.status, r.error, now)
  {
    assert (results + [r])[..|results|] == results;
  }

  /** `main`. */
  method RunScheduler(store: Store, token: Option<string>, pages: string -> Option<seq<Selection.Entry>>,
                      replies: nat -> Delivery.Reply, now: int)
    returns (response: Response)
    modifies store
    ensures response == Run(old(store.configs), token, pages, replies, now)
    ensures response.Completed? ==>
      store.records == old(store.records) + RecordsOf(response.results, now) &&
      store.configs == ApplyUpdates(old(store.configs), response.results, now)
    ensures !response.Completed? ==> store.records == old(store.records) && store.configs == old(store.configs)
  {
    if token.None? {
      return TokenUnavailable;
    }
    var configurations: seq<Config> := [];
    var listed := store.configs;
    for i := 0 to |listed|
      invariant configurations == Active(listed[..i])
      invariant unchanged(store)
    {
      ActiveStep(listed, i);
      if listed[i].active {
        configurations := configurations + [listed[i]];
      }
    }
    assert listed[..|listed|] == listed;
    if configurations == [] {
      return NoActiveConfigurations;
    }
    var due: seq<Config> := [];
    for i := 0 to |configurations|
      invariant due == Due(configurations[..i], now)
      invariant unchanged(store)
    {
      var config := configurations[i];
      DueStep(configurations, i, now);
      if Schedule.IsDue(config.schedule, config.lastExecuted, now) {
        due := due + [config];
      }
    }
    assert configurations[..|configurations|] == configurations;
    var results := RunDueJobs(store, due, pages, replies, now);
    response := Completed(results, Successful(results), TotalSent(results));
  }

  // What a run does.

  /** The result of a job is one of the three outcomes, with the counts and error that go with it. */
  predicate Classified(r: JobResult) {
    && (r.status == Success ==> r.error.None? && r.found > 0 && r.sent == r.found)
    && (r.status == NoArticles ==> r.error.None? && r.found == 0 && r.sent == 0)
    && (r.status == Failed ==> r.error.Some? && r.sent == 0)
  }

  /** A configuration is run exactly when the store lists it as active and it is due at `now`. */
  lemma {:induction false} DueIff(configs: seq<Config>, now: int, c: Config)
    ensures c in Due(Active(configs), now) <==>
      c in configs && c.active && Schedule.IsDue(c.schedule, c.lastExecuted, now)
  {
    ActiveIff(configs, c);
    DueInIff(Active(configs), now, c);
  }

  lemma {:induction false} ActiveIff(configs: seq<Config>, c: Config)
    ensures c in Active(configs) <==> c in configs && c.active
  {
    if configs != [] {
      var front := configs[..|configs| - 1];
      ActiveIff(front, c);
      assert configs == front + [configs[|configs| - 1]];
    }
  }

  lemma {:induction false} DueInIff(configs: seq<Config>, now: int, c: Config)
    ensures c in Due(configs, now) <==> c in configs && Schedule.IsDue(c.schedule, c.lastExecuted, now)
  {
    if configs != [] {
      var front := configs[..|configs| - 1];
      DueInIff(front, now, c);
      assert configs == front + [configs[|configs| - 1]];
    }
  }

  /** The jobs run in the given order, one result per configuration, each classified. */
  lemma {:induction false} RunJobsSpec(due: seq<Config>, pages: string -> Option<seq<Selection.Entry>>,
                                       replies: nat -> Delivery.Reply, cursor: nat)
    ensures var results := RunJobs(due, pages, replies, cursor).0;
      forall i :: 0 <= i < |results| ==> results[i].configId == due[i].id && Classified(results[i])
  {
    if due != [] {
      var o := RunJob(due[0], pages, replies, cursor);
      RunJobOutcome(due[0], pages, replies, cursor);
      RunJobsSpec(due[1..], pages, replies, o.cursor);
      var results := RunJobs(due, pages, replies, cursor).0;
      assert results == [o.result] + RunJobs(due[1..], pages, replies, o.cursor).0;
      assert forall i :: 1 <= i < |results| ==> results[i] == RunJobs(due[1..], pages, replies, o.cursor).0[i - 1];
    }
  }

  /** The positions of the successful results. */
  function SuccessAt(results: seq<JobResult>): set<nat> {
    set i: nat | i < |results| && results[i].status == Success
  }

  /** `Successful` counts the results whose status is success, each once. */
  lemma {:induction false} SuccessfulCounts(results: seq<JobResult>)
    ensures Successful(results) == |SuccessAt(results)|
  {
    if results != [] {
      var n := |results| - 1;
      var front := results[..n];
      SuccessfulCounts(front);
      assert forall i :: 0 <= i < n ==> front[i] == results[i];
      if results[n].status == Success {
        assert SuccessAt(results) == SuccessAt(front) + {n};
      } else {
        assert SuccessAt(results) == SuccessAt(front);
      }
    }
  }

  /** The articles found by the successful jobs. */
  function FoundBySuccessful(results: seq<JobResult>): nat {
    if results == [] then 0
    else
      var r := results[|results| - 1];
      FoundBySuccessful(results[..|results| - 1]) + (if r.status == Success then r.found else 0)
  }

  /** Of classified results, the articles sent are the articles the successful jobs found. */
  lemma {:induction false} TotalSentIsFoundBySuccessful(results: seq<JobResult>)
    requires forall i :: 0 <= i < |results| ==> Classified(results[i])
    ensures TotalSent(results) == FoundBySuccessful(results)
    ensures Successful(results) <= |results|
  {
    if results != [] {
      var front := results[..|results| - 1];
      assert forall i :: 0 <= i < |front| ==> front[i] == results[i];
      TotalSentIsFoundBySuccessful(front);
      assert Classified(results[|results| - 1]);
    }
  }

  /**
    `main`: with no token nothing runs. With no active configuration nothing runs either.
    Otherwise the response lists one classified result for each due active configuration, in
    store order, counts the successful ones (the number of positions whose status is success)
    and sums the articles they sent.
  */
  lemma RunSpec(configs: seq<Config>, token: Option<string>, pages: string -> Option<seq<Selection.Entry>>,
                replies: nat -> Delivery.Reply, now: int)
    ensures token.None? <==> Run(configs, token, pages, replies, now) == TokenUnavailable
    ensures Run(configs, token, pages, replies, now) == NoActiveConfigurations <==>
      token.Some? && forall c :: c in configs ==> !c.active
    ensures match Run(configs, token, pages, replies, now)
      case Completed(results, successful, totalSent) =>
        var due := Due(Active(configs), now);
        && |results| == |due|
        && (forall i :: 0 <= i < |results| ==> results[i].configId == due[i].id && Classified(results[i]))
        && successful <= |results| && successful == |SuccessAt(results)|
        && totalSent == FoundBySuccessful(results)
      case _ => true
  {
    if token.Some? {
      forall c | c in configs
        ensures c in Active(configs) <==> c.active
      {
        ActiveIff(configs, c);
      }
      if Active(configs) != [] {
        assert Active(configs)[0] in Active(configs);
        ActiveIff(configs, Active(configs)[0]);
        var due := Due(Active(configs), now);
        RunJobsSpec(due, pages, replies, 0);
        TotalSentIsFoundBySuccessful(RunJobs(due, pages, replies, 0).0);
        SuccessfulCounts(RunJobs(due, pages, replies, 0).0);
      }
    }
  }

  /** The results include a job of the configuration `id`. */
  predicate Executed(results: seq<JobResult>, id: string) {
    exists j :: 0 <= j < |results| && results[j].configId == id
  }

  /** The `k`-th configuration after the updates of `results`: the one before, stamped `now` if it ran. */
  ghost predicate AppliedAt(configs: seq<Config>, updated: seq<Config>, results: seq<JobResult>, now: int, k: nat)
    requires k < |configs| && |updated| == |configs|
  {
    var c := updated[k];
    && c.id == configs[k].id && c.schedule == configs[k].schedule
    && (Executed(results, c.id) ==> c.lastExecuted == Some(now))
    && (!Executed(results, c.id) ==> c == configs[k])
  }

  ghost predicate Applied(configs: seq<Config>, updated: seq<Config>, results: seq<JobResult>, now: int) {
    |updated| == |configs| && forall k :: 0 <= k < |configs| ==> AppliedAt(configs, updated, results, now, k)
  }

  /**
    After the status updates of a run, a configuration that ran was last executed `now`, and
    one that did not run is untouched; the store keeps its configurations and their order.
  */
  lemma {:induction false} AppliedUpdates(configs: seq<Config>, results: seq<JobResult>, now: int)
    ensures Applied(configs, ApplyUpdates(configs, results, now), results, now)
  {
    if results != [] {
      var front := results[..|results| - 1];
      var r := results[|results| - 1];
      AppliedUpdates(configs, front, now);
      assert results == front + [r];
      AppliedStep(configs, ApplyUpdates(configs, front, now), front, r, now);
    }
  }

  /** One more status update keeps the store `Applied`. */
  lemma AppliedStep(configs: seq<Config>, before: seq<Config>, front: seq<JobResult>, r: JobResult, now: int)
    requires Applied(configs, before, front, now)
    ensures Applied(configs, UpdateStatus(before, r.configId, r.status, r.error, now), front + [r], now)
  {
    var after := UpdateStatus(before, r.configId, r.status, r.error, now);
    forall k | 0 <= k < |configs|
      ensures AppliedAt(configs, after, front + [r], now, k)
    {
      assert AppliedAt(configs, before, front, now, k);
      ExecutedSnoc(front, r, before[k].id);
    }
  }

  lemma ExecutedSnoc(results: seq<JobResult>, r: JobResult, id: string)
    ensures Executed(results + [r], id) <==> Executed(results, id) || r.configId == id
  {
    var all := results + [r];
    if Executed(results, id) {
      var j :| 0 <= j < |results| && results[j].configId == id;
      assert all[j] == results[j];
    }
    if r.configId == id {
      assert all[|results|] == r;
    }
    if Executed(all, id) && !Executed(results, id) {
      var j :| 0 <= j < |all| && all[j].configId == id;
      if j < |results| {
        assert all[j] == results[j];
      }
    }
  }

  /** The run logs one execution record per job, in order, stamped `now`. */
  lemma {:induction false} RecordsOfResults(results: seq<JobResult>, now: int)
    ensures |RecordsOf(results, now)| == |results|
    ensures forall i :: 0 <= i < |results| ==>
      RecordsOf(results, now)[i] == Record(results[i].configId, now, results[i].status, results[i].found, results[i].sent, results[i].error)
  {
    if results != [] {
      var front := results[..|results| - 1];
      RecordsOfResults(front, now);
      assert forall i :: 0 <= i < |front| ==> front[i] == results[i];
    }
  }

  /**
    A second run in the same minute finds no configuration that ran due again, except a custom
    one whose interval is not positive.
  */
  lemma RanIsNoLongerDue(configs: seq<Config>, results: seq<JobResult>, now: int, k: nat)
    requires k < |configs| && Executed(results, configs[k].id)
    ensures var c := ApplyUpdates(configs, results, now)[k];
      Schedule.IsDue(c.schedule, c.lastExecuted, now) ==>
        c.schedule.Custom? && Schedule.Interval(c.schedule.interval) <= 0
  {
    AppliedUpdates(configs, results, now);
    assert AppliedAt(configs, ApplyUpdates(configs, results, now), results, now, k);
    var c := ApplyUpdates(configs, results, now)[k];
    Schedule.RunClearsDue(c.schedule, now);
  }
}
