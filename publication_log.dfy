/**
 * The publication log of `save_publication_log`: one entry per run, of which
 * the most recent hundred are kept.
 */
module PublicationLog {
  /** The most entries the log keeps. */
  const MaxUpdates: nat := 100
  /** The most PubMed identifiers an entry records. */
  const MaxRecentPmids: nat := 10

  /** One run: when it happened, the count it found and the newest identifiers. */
  datatype LogEntry = LogEntry(timestamp: string, totalCount: int, recentPmids: seq<string>)

  /**
   * The log file as the run finds it: absent, holding a list of updates, or
   * unreadable (not valid JSON, or without an `updates` list), in which case
   * the error is reported and nothing is written.
   */
  datatype LogFile = Missing | Present(updates: seq<LogEntry>) | Unreadable

  function Min(a: int, b: int): int {
    if a <= b then a else b
  }

  /** `pmids[:10] if pmids else []`: the first ten identifiers, or all of them when there are fewer. */
  function RecentPmids(pmids: seq<string>): (r: seq<string>)
    ensures |r| == Min(|pmids|, MaxRecentPmids)
    ensures r <= pmids
  {
    if |pmids| == 0 then [] else pmids[..Min(|pmids|, MaxRecentPmids)]
  }

  /** The entry a run records. */
  function NewEntry(timestamp: string, pubCount: int, pmids: seq<string>): LogEntry {
    LogEntry(timestamp, pubCount, RecentPmids(pmids))
  }

  /** `s[-n:]` for a positive n: the last n elements, or all of s when it is shorter. */
  function KeepLast<T>(s: seq<T>, n: nat): (r: seq<T>)
    requires n > 0
    ensures |r| == Min(|s|, n)
    ensures r == s[|s| - |r|..]
  {
    if |s| <= n then s else s[|s| - n..]
  }

  /** The updates after one entry is appended and the list is cut to the last hundred. */
  function Appended(updates: seq<LogEntry>, entry: LogEntry): (r: seq<LogEntry>)
    ensures |r| == Min(|updates| + 1, MaxUpdates)
    ensures r[|r| - 1] == entry
    ensures r[..|r| - 1] == updates[|updates| - (|r| - 1)..]
  {
    var r := KeepLast(updates + [entry], MaxUpdates);
    assert r[..|r| - 1] == (updates + [entry])[|updates| + 1 - |r|..|updates|];
    r
  }

  /** Below the bound nothing is dropped. */
  lemma AppendedKeepsAll(updates: seq<LogEntry>, entry: LogEntry)
    requires |updates| < MaxUpdates
    ensures Appended(updates, entry) == updates + [entry]
  {
  }

  /** At the bound exactly the oldest entry is dropped. */
  lemma AppendedDropsOldest(updates: seq<LogEntry>, entry: LogEntry)
    requires |updates| == MaxUpdates
    ensures Appended(updates, entry) == updates[1..] + [entry]
  {
    var r := Appended(updates, entry);
    assert r == r[..|r| - 1] + [r[|r| - 1]];
  }

  /** The updates after a series of runs, each appending its entry. */
  function AppendAll(updates: seq<LogEntry>, entries: seq<LogEntry>): seq<LogEntry>
    decreases |entries|
  {
    if entries == [] then updates else AppendAll(Appended(updates, entries[0]), entries[1..])
  }

  /**
   * However many runs there were, the log holds the last hundred of all
   * entries ever written, oldest first.
   */
  lemma {:induction false} AppendAllKeepsNewest(updates: seq<LogEntry>, entries: seq<LogEntry>)
    requires |updates| <= MaxUpdates
    ensures AppendAll(updates, entries) == KeepLast(updates + entries, MaxUpdates)
    decreases |entries|
  {
    if entries == [] {
      assert updates + entries == updates;
    } else {
      var next := Appended(updates, entries[0]);
      AppendAllKeepsNewest(next, entries[1..]);
      KeepLastTail(updates + [entries[0]], entries[1..], MaxUpdates);
      assert (updates + [entries[0]]) + entries[1..] == updates + entries;
    }
  }

  /** Cutting a prefix early does not change the last n elements of a longer sequence. */
  lemma KeepLastTail<T>(s: seq<T>, t: seq<T>, n: nat)
    requires n > 0
    ensures KeepLast(KeepLast(s, n) + t, n) == KeepLast(s + t, n)
  {
    var k := KeepLast(s, n);
    var a := KeepLast(k + t, n);
    var b := KeepLast(s + t, n);
    assert |a| == |b|;
    forall i | 0 <= i < |a|
      ensures a[i] == b[i]
    {
      assert a[i] == (k + t)[|k + t| - |a| + i];
      assert b[i] == (s + t)[|s + t| - |b| + i];
    }
  }

  /** The log's list of updates, as `log_data["updates"]` holds it during a run. */
  class UpdateLog {
    var updates: seq<LogEntry>

    /** An empty log: `{"updates": []}`. */
    constructor ()
      ensures updates == []
    {
      updates := [];
    }

    /** A log read from the file. */
    constructor Load(saved: seq<LogEntry>)
      ensures updates == saved
    {
      updates := saved;
    }

    /** `append` followed by `[-100:]`. */
    method Append(entry: LogEntry)
      modifies this
      ensures updates == Appended(old(updates), entry)
    {
      updates := updates + [entry];
      updates := updates[|updates| - Min(|updates|, MaxUpdates)..];
    }
  }

  /**
   * `save_publication_log`: the log after this run. A missing file starts an
   * empty log; an unreadable one is left as it is.
   */
  method SavePublicationLog(file: LogFile, timestamp: string, pubCount: int, pmids: seq<string>) returns (saved: LogFile)
    ensures file.Unreadable? ==> saved == file
    ensures file.Missing? ==> saved == Present([NewEntry(timestamp, pubCount, pmids)])
    ensures file.Present? ==> saved == Present(Appended(file.updates, NewEntry(timestamp, pubCount, pmids)))
  {
    if file.Unreadable? {
      return file;
    }
    var entry := NewEntry(timestamp, pubCount, pmids);
    var log: UpdateLog;
    if file.Present? {
      log := new UpdateLog.Load(file.updates);
    } else {
      log := new UpdateLog();
    }
    log.Append(entry);
    saved := Present(log.updates);
  }
}
