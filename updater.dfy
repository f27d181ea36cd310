/**
 * `main` and the script's exit status: fetch the count, rewrite the page,
 * record the run, and exit with 0 only when the page changed.
 */
module Updater {
  import opened Wrappers
  import opened HtmlStats
  import opened PublicationLog

  /**
   * One run of the script. The results of the two PubMed queries, the page,
   * the log file and the clock reading come in as parameters: `count` is
   * None when the count query failed, and `page` is None when the page
   * cannot be read.
   */
  method RunUpdate(count: Option<int>, recentPmids: seq<string>, page: Option<string>, log: LogFile, timestamp: string)
    returns (exitCode: int, pageAfter: Option<string>, logAfter: LogFile)
    ensures exitCode == 0 || exitCode == 1
    ensures count.None? ==> exitCode == 1 && pageAfter == page && logAfter == log
    ensures exitCode == 0 <==> count.Some? && page.Some? && PatchStats(page.value, count.value) != page.value
    ensures count.Some? && count.value >= 0 ==> (exitCode == 0 <==> page.Some? && !ShowsCount(page.value, count.value))
    ensures count.Some? ==> pageAfter == (if page.None? then page else Some(PatchStats(page.value, count.value)))
    ensures count.Some? && count.value >= 0 && pageAfter.Some? ==> ShowsCount(pageAfter.value, count.value)
    ensures count.Some? && log.Unreadable? ==> logAfter == log
    ensures count.Some? && log.Missing? ==> logAfter == Present([NewEntry(timestamp, count.value, recentPmids)])
    ensures count.Some? && log.Present? ==> logAfter == Present(Appended(log.updates, NewEntry(timestamp, count.value, recentPmids)))
  {
    if count.None? {
      return 1, page, log;
    }
    var pubCount := count.value;
    var updated;
    updated, pageAfter := UpdateHtmlStats(page, pubCount);
    if pubCount >= 0 && pageAfter.Some? {
      PatchShowsCount(page.value, pubCount);
    }
    logAfter := SavePublicationLog(log, timestamp, pubCount, recentPmids);
    exitCode := if updated then 0 else 1;
  }
}
