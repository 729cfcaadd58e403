/** The recent-log query of `get_logs` (app/routes.py):
    `AccessLog.query.order_by(AccessLog.timestamp.desc()).limit(5).all()` followed by
    the list comprehension that turns each row into a JSON item. */
module LogQuery {
  import opened Models

  /** The `.limit(5)` of the query. */
  const LOG_LIMIT: nat := 5

  /** Timestamps never increase along `s`. */
  ghost predicate NewestFirst(s: seq<AccessLog>) {
    forall i, j | 0 <= i < j < |s| :: s[i].timestamp >= s[j].timestamp
  }

  /** The head of a newest-first sequence is at least as new as all of it. */
  lemma HeadIsNewest(s: seq<AccessLog>)
    requires NewestFirst(s) && s != []
    ensures forall x | x in s :: x.timestamp <= s[0].timestamp
  {
    forall x | x in s ensures x.timestamp <= s[0].timestamp {
      var k :| 0 <= k < |s| && s[k] == x;
      if k > 0 { assert s[0].timestamp >= s[k].timestamp; }
    }
  }

  /** Putting an entry at least as new as all of `t` in front keeps the order. */
  lemma ConsNewestFirst(h: AccessLog, t: seq<AccessLog>)
    requires NewestFirst(t)
    requires forall x | x in t :: x.timestamp <= h.timestamp
    ensures NewestFirst([h] + t)
  {
    var s := [h] + t;
    forall i, j | 0 <= i < j < |s| ensures s[i].timestamp >= s[j].timestamp {
      assert s[j] == t[j - 1];
      if i > 0 { assert s[i] == t[i - 1]; } else { assert t[j - 1] in t; }
    }
  }

  /** Places `e` into the newest-first sequence `s` after every entry that is at
      least as new as `e`. */
  function InsertByTimestamp(e: AccessLog, s: seq<AccessLog>): (r: seq<AccessLog>)
    requires NewestFirst(s)
    ensures NewestFirst(r)
    ensures multiset(r) == multiset(s) + multiset{e}
    ensures forall x | x in r :: x == e || x in s
    ensures |r| == |s| + 1
  {
    if s == [] then [e]
    else if e.timestamp > s[0].timestamp then
      HeadIsNewest(s);
      ConsNewestFirst(e, s);
      [e] + s
    else
      var rest := InsertByTimestamp(e, s[1..]);
      HeadIsNewest(s);
      assert s == [s[0]] + s[1..];
      assert forall x | x in rest :: x.timestamp <= s[0].timestamp by {
        forall x | x in rest ensures x.timestamp <= s[0].timestamp {
          if x != e { assert x in s; }
        }
      }
      ConsNewestFirst(s[0], rest);
      assert multiset([s[0]] + rest) == multiset{s[0]} + multiset(rest);
      [s[0]] + rest
  }

  /** The rows ordered by descending timestamp. SQL leaves the order of rows with
      equal timestamps open; this ordering puts the later-appended row first. */
  function OrderByTimestampDesc(s: seq<AccessLog>): (r: seq<AccessLog>)
    ensures NewestFirst(r)
    ensures multiset(r) == multiset(s)
    ensures |r| == |s|
  {
    if s == [] then []
    else
      var r := InsertByTimestamp(s[0], OrderByTimestampDesc(s[1..]));
      assert s == [s[0]] + s[1..];
      r
  }

  function Min(a: nat, b: nat): nat {
    if a <= b then a else b
  }

  /** The query's result: the first five rows of the descending order. */
  function RecentLogs(log: seq<AccessLog>): (r: seq<AccessLog>)
    ensures |r| == Min(LOG_LIMIT, |log|)
    ensures NewestFirst(r)
    ensures multiset(r) <= multiset(log)
    ensures forall e, o | e in r && o in multiset(log) - multiset(r) :: o.timestamp <= e.timestamp
  {
    var sorted := OrderByTimestampDesc(log);
    var k := Min(LOG_LIMIT, |log|);
    SplitNewestFirst(sorted, k);
    sorted[..k]
  }

  /** Cutting a newest-first sequence at `k` leaves a newest-first prefix, none of
      whose entries is older than an entry of the rest, and the rest's multiset is
      what the prefix leaves of the whole. */
  lemma SplitNewestFirst(s: seq<AccessLog>, k: nat)
    requires NewestFirst(s) && k <= |s|
    ensures NewestFirst(s[..k])
    ensures multiset(s) - multiset(s[..k]) == multiset(s[k..])
    ensures forall e, o | e in s[..k] && o in multiset(s) - multiset(s[..k]) :: o.timestamp <= e.timestamp
  {
    assert s == s[..k] + s[k..];
    assert multiset(s) == multiset(s[..k]) + multiset(s[k..]);
    forall e, o | e in s[..k] && o in multiset(s[k..]) ensures o.timestamp <= e.timestamp {
      var i :| 0 <= i < k && s[..k][i] == e;
      var j :| 0 <= j < |s| - k && s[k..][j] == o;
      assert s[i] == e && s[k + j] == o;
    }
  }

  /** One item of the JSON list `get_logs` returns. The timestamp stays the clock
      reading; its rendering as local time is not modelled. */
  datatype LogItem = LogItem(username: string, tagUid: string, timestamp: nat, status: string)

  /** The dict built for one row: it drops nothing, so the row can be rebuilt
      from it. */
  function ItemOf(e: AccessLog): (item: LogItem)
    ensures AccessLog(item.tagUid, item.username, item.timestamp, item.status) == e
  {
    LogItem(e.username, e.tagUid, e.timestamp, e.status)
  }

  /** The body of `get_logs`: the recent rows as items, in the query's order, every
      field passed through unchanged. */
  function GetLogs(log: seq<AccessLog>): (items: seq<LogItem>)
    ensures |items| == |RecentLogs(log)|
    ensures forall i | 0 <= i < |items| ::
              var e := RecentLogs(log)[i];
              items[i].username == e.username && items[i].tagUid == e.tagUid &&
              items[i].status == e.status && items[i].timestamp == e.timestamp
  {
    var recent := RecentLogs(log);
    seq(|recent|, i requires 0 <= i < |recent| => ItemOf(recent[i]))
  }

  /** What callers see of `get_logs`: min(5, number of rows) items, so never more
      than five, newest first. */
  lemma GetLogsShape(log: seq<AccessLog>)
    ensures |GetLogs(log)| == Min(LOG_LIMIT, |log|) && |GetLogs(log)| <= LOG_LIMIT
    ensures forall i, j | 0 <= i < j < |GetLogs(log)| :: GetLogs(log)[i].timestamp >= GetLogs(log)[j].timestamp
  {
    var r := RecentLogs(log);
    var items := GetLogs(log);
    forall i, j | 0 <= i < j < |items| ensures items[i].timestamp >= items[j].timestamp {
      assert items[i].timestamp == r[i].timestamp && items[j].timestamp == r[j].timestamp;
    }
  }

  /** Every item of `get_logs` shows a logged row, and every row left out is at
      most as new as every row shown. */
  lemma GetLogsCoverage(log: seq<AccessLog>)
    ensures forall i | 0 <= i < |GetLogs(log)| :: exists e | e in log :: GetLogs(log)[i] == ItemOf(e)
    ensures forall i, o | 0 <= i < |GetLogs(log)| && o in multiset(log) - multiset(RecentLogs(log)) ::
              o.timestamp <= GetLogs(log)[i].timestamp
  {
    var r := RecentLogs(log);
    var items := GetLogs(log);
    forall i | 0 <= i < |items| ensures exists e | e in log :: items[i] == ItemOf(e) {
      assert r[i] in multiset(r);
      assert r[i] in multiset(log);
      assert items[i] == ItemOf(r[i]);
    }
    forall i, o | 0 <= i < |items| && o in multiset(log) - multiset(r) ensures o.timestamp <= items[i].timestamp {
      assert r[i] in r;
      assert items[i].timestamp == r[i].timestamp;
    }
  }

  /** Timestamps strictly increase along `s` (an append-only log written by a
      clock that advances between inserts). With equal timestamps the database
      leaves the order of `order_by(timestamp.desc())` open, so no exact result
      is promised for such a log. */
  ghost predicate OldestFirst(s: seq<AccessLog>) {
    forall i, j | 0 <= i < j < |s| :: s[i].timestamp < s[j].timestamp
  }

  function Reverse<T>(s: seq<T>): (r: seq<T>)
    ensures |r| == |s|
  {
    seq(|s|, i requires 0 <= i < |s| => s[|s| - 1 - i])
  }

  /** Reversing moves the first element to the end. */
  lemma ReverseCons<T>(s: seq<T>)
    requires s != []
    ensures Reverse(s) == Reverse(s[1..]) + [s[0]]
  {
  }

  /** An entry no newer than all of `s` goes to the end. */
  lemma {:induction false} InsertOldestAtEnd(e: AccessLog, s: seq<AccessLog>)
    requires NewestFirst(s)
    requires forall x | x in s :: e.timestamp <= x.timestamp
    ensures InsertByTimestamp(e, s) == s + [e]
  {
    if s != [] {
      assert s == [s[0]] + s[1..];
      InsertOldestAtEnd(e, s[1..]);
    }
  }

  /** With a log in clock order, ordering by descending timestamp reverses it. */
  lemma {:induction false} OrderOfOldestFirstIsReverse(s: seq<AccessLog>)
    requires OldestFirst(s)
    ensures OrderByTimestampDesc(s) == Reverse(s)
  {
    if s != [] {
      var t := s[1..];
      TailOldestFirst(s);
      OrderOfOldestFirstIsReverse(t);
      var rt := Reverse(t);
      ReverseKeepsElements(t);
      InsertOldestAtEnd(s[0], rt);
      ReverseCons(s);
    }
  }

  /** The tail of a sequence in clock order is in clock order, and every entry of
      it is newer than the head. */
  lemma TailOldestFirst(s: seq<AccessLog>)
    requires OldestFirst(s) && s != []
    ensures OldestFirst(s[1..])
    ensures forall x | x in s[1..] :: s[0].timestamp < x.timestamp
  {
    var t := s[1..];
    forall i, j | 0 <= i < j < |t| ensures t[i].timestamp < t[j].timestamp {
      assert t[i] == s[i + 1] && t[j] == s[j + 1];
    }
    forall x | x in t ensures s[0].timestamp < x.timestamp {
      var k :| 0 <= k < |t| && t[k] == x;
      assert x == s[k + 1];
    }
  }

  lemma ReverseKeepsElements<T>(s: seq<T>)
    ensures forall x | x in Reverse(s) :: x in s
  {
    forall x | x in Reverse(s) ensures x in s {
      var k :| 0 <= k < |s| && Reverse(s)[k] == x;
      assert x == s[|s| - 1 - k];
    }
  }

  /** With a log in clock order, `get_logs` shows the last min(5, |log|) scans,
      the most recent first. */
  lemma RecentOfOldestFirst(log: seq<AccessLog>)
    requires OldestFirst(log)
    ensures RecentLogs(log) == Reverse(log[|log| - Min(LOG_LIMIT, |log|)..])
  {
    OrderOfOldestFirstIsReverse(log);
    var k := Min(LOG_LIMIT, |log|);
    assert RecentLogs(log) == OrderByTimestampDesc(log)[..k];
    ReversePrefix(log, k);
  }

  /** The first `k` of the reversed sequence are the last `k`, reversed. */
  lemma ReversePrefix<T>(s: seq<T>, k: nat)
    requires k <= |s|
    ensures Reverse(s)[..k] == Reverse(s[|s| - k..])
  {
    var n := |s|;
    forall i | 0 <= i < k ensures Reverse(s)[i] == Reverse(s[n - k..])[i] {
      assert Reverse(s[n - k..])[i] == s[n - k..][k - 1 - i];
    }
  }
}
