/** The `raft_log` table of mudd/src/raft/storage.rs: rows keyed by a signed 64-bit index, and the
    abstract Raft log (section 5.3 of the extended Raft paper) that the rows stand for. */
module RaftLogTable {
  import opened Integers
  import opened Wrappers

  datatype LogId = LogId(term: U64, nodeId: U64, index: U64)

  datatype Request = Request(sql: string, params: seq<string>)

  datatype Membership = Membership(configs: seq<set<U64>>, nodes: map<U64, string>)

  datatype Payload = Blank | Normal(request: Request) | Change(membership: Membership)

  datatype Entry = Entry(logId: LogId, payload: Payload)

  /** The text of the payload column, by what it parses to. */
  datatype JsonText = RequestText(request: Request) | MembershipText(membership: Membership) | OtherText

  datatype Row = Row(term: I64, entryType: string, payload: Option<JsonText>)

  type Table = map<I64, Row>

  function ParseRequest(text: JsonText): Result<Request, string> {
    if text.RequestText? then Ok(text.request) else Err("not a request")
  }

  function ParseMembership(text: JsonText): Result<Membership, string> {
    if text.MembershipText? then Ok(text.membership) else Err("not a membership")
  }

  function EntryToRow(e: Entry): Row {
    match e.payload
    case Blank => Row(AsI64(e.logId.term), "blank", None)
    case Normal(r) => Row(AsI64(e.logId.term), "normal", Some(RequestText(r)))
    case Change(m) => Row(AsI64(e.logId.term), "membership", Some(MembershipText(m)))
  }

  /** A missing payload is read as the text `{}`, which is neither a request nor a membership. */
  function RowToEntry(key: I64, row: Row): Result<Entry, string> {
    var id := LogId(AsU64(row.term), 0, AsU64(key));
    var text := if row.payload.Some? then row.payload.value else OtherText;
    if row.entryType == "blank" then
      Ok(Entry(id, Blank))
    else if row.entryType == "normal" then
      match ParseRequest(text)
      case Ok(r) => Ok(Entry(id, Normal(r)))
      case Err(m) => Err(m)
    else if row.entryType == "membership" then
      match ParseMembership(text)
      case Ok(m) => Ok(Entry(id, Change(m)))
      case Err(m) => Err(m)
    else
      Err("unknown entry type: " + row.entryType)
  }

  /** Rows do not store the leader's node id, so it reads back as zero. */
  function Anonymous(e: Entry): Entry { e.(logId := e.logId.(nodeId := 0)) }

  lemma RowRoundTrip(e: Entry)
    ensures RowToEntry(AsI64(e.logId.index), EntryToRow(e)) == Ok(Anonymous(e))
  {
    assert AsU64(AsI64(e.logId.index)) == e.logId.index && AsU64(AsI64(e.logId.term)) == e.logId.term;
  }

  /** Nothing else can be read: a row that reads as an entry is what that entry is written as, but for the payload of a
      blank one, which is passed over. */
  lemma ReadsOnlyWritten(key: I64, row: Row)
    requires RowToEntry(key, row).Ok?
    ensures var e := RowToEntry(key, row).value;
            && AsI64(e.logId.index) == key && e.logId.nodeId == 0
            && EntryToRow(e) == if row.entryType == "blank" then row.(payload := None) else row
  {
    assert AsI64(AsU64(key)) == key && AsI64(AsU64(row.term)) == row.term;
  }

  // ----- The statements run against the table -----

  function Upsert(t: Table, e: Entry): Table { t[AsI64(e.logId.index) := EntryToRow(e)] }

  function UpsertAll(t: Table, es: seq<Entry>): Table
    decreases |es|
  {
    if es == [] then t else Upsert(UpsertAll(t, es[..|es| - 1]), es[|es| - 1])
  }

  function DeleteFrom(t: Table, low: I64): Table { map k | k in t && k < low :: t[k] }

  function DeleteUpTo(t: Table, high: I64): Table { map k | k in t && high < k :: t[k] }

  /** `SELECT ... WHERE log_index >= low AND log_index < high ORDER BY log_index`. */
  function SelectRange(t: Table, low: int, high: I64): (rows: seq<(I64, Row)>)
    requires -TWO_63 <= low
    decreases high - low
  {
    if low >= high then []
    else (if low in t then [(low, t[low])] else []) + SelectRange(t, low + 1, high)
  }

  datatype Bound = Included(n: U64) | Excluded(n: U64) | Unbounded

  /** The additions are on u64 and wrap; the casts come after them. */
  function StartKey(b: Bound): I64 {
    match b
    case Included(n) => AsI64(n)
    case Excluded(n) => AsI64((n + 1) % TWO_64)
    case Unbounded => 0
  }

  function EndKey(b: Bound): I64 {
    match b
    case Included(n) => AsI64((n + 1) % TWO_64)
    case Excluded(n) => AsI64(n)
    case Unbounded => I64_MAX
  }

  function CollectEntries(rows: seq<(I64, Row)>): Result<seq<Entry>, string> {
    if rows == [] then Ok([])
    else
      match RowToEntry(rows[0].0, rows[0].1)
      case Err(m) => Err(m)
      case Ok(e) =>
        match CollectEntries(rows[1..])
        case Err(m) => Err(m)
        case Ok(es) => Ok([e] + es)
  }

  function ReadEntries(t: Table, low: Bound, high: Bound): Result<seq<Entry>, string> {
    CollectEntries(SelectRange(t, StartKey(low), EndKey(high)))
  }

  function LastLogId(t: Table): Option<LogId> {
    if t == map[] then None
    else
      var k := MaxKey(t.Keys);
      Some(LogId(AsU64(t[k].term), 0, AsU64(k)))
  }

  // ----- The abstract log -----

  /** The entries at indices first, first + 1, ...; everything below first has been purged. */
  datatype RaftLog = RaftLog(first: nat, entries: seq<Entry>) {
    function Next(): nat { first + |entries| }
  }

  /** The batch carries consecutive indices starting at start. */
  ghost predicate Consecutive(es: seq<Entry>, start: nat) {
    forall i | 0 <= i < |es| :: es[i].logId.index == start + i
  }

  ghost predicate RowMatches(t: Table, log: RaftLog, k: I64) {
    && (k in t <==> log.first <= k < log.Next())
    && (k in t ==> t[k] == EntryToRow(log.entries[k - log.first]))
  }

  /** The table holds exactly the rows of the log, and every index fits the signed key column. */
  ghost predicate Represents(t: Table, log: RaftLog) {
    && log.Next() <= I64_MAX
    && Consecutive(log.entries, log.first)
    && (forall k: I64 :: RowMatches(t, log, k))
  }

  /** A batch may start anywhere from first to the end: later rows are replaced, none is skipped. */
  ghost predicate CanAppend(log: RaftLog, es: seq<Entry>) {
    es != [] ==>
      var start := es[0].logId.index;
      log.first <= start <= log.Next() && Consecutive(es, start) && start + |es| <= I64_MAX
  }

  ghost function Append(log: RaftLog, es: seq<Entry>): RaftLog
    requires CanAppend(log, es)
  {
    if es == [] then log
    else
      var at := es[0].logId.index - log.first;
      var rest := if at + |es| < |log.entries| then log.entries[at + |es|..] else [];
      log.(entries := log.entries[..at] + es + rest)
  }

  ghost function Truncate(log: RaftLog, index: nat): RaftLog {
    if index <= log.first then log.(entries := [])
    else if index >= log.Next() then log
    else log.(entries := log.entries[..index - log.first])
  }

  ghost function Purge(log: RaftLog, index: nat): RaftLog
    requires log.first <= index + 1
  {
    if index + 1 >= log.Next() then RaftLog(index + 1, [])
    else RaftLog(index + 1, log.entries[index + 1 - log.first..])
  }

  /** The entries whose index lies in [low, high). */
  ghost function Slice(log: RaftLog, low: nat, high: nat): seq<Entry> {
    var a := if low <= log.first then 0 else if low >= log.Next() then |log.entries| else low - log.first;
    var b := if high <= log.first then 0 else if high >= log.Next() then |log.entries| else high - log.first;
    if a <= b then log.entries[a..b] else []
  }

  ghost function AnonymousAll(es: seq<Entry>): seq<Entry> {
    seq(|es|, i requires 0 <= i < |es| => Anonymous(es[i]))
  }

  // ----- The table refines the log -----

  lemma UpsertAllAt(t: Table, es: seq<Entry>, start: nat, k: I64)
    requires Consecutive(es, start) && start + |es| <= I64_MAX
    ensures k in UpsertAll(t, es) <==> k in t || start <= k < start + |es|
    ensures start <= k < start + |es| ==> UpsertAll(t, es)[k] == EntryToRow(es[k - start])
    ensures k in t && !(start <= k < start + |es|) ==> UpsertAll(t, es)[k] == t[k]
    decreases |es|
  {
    if es != [] {
      var last := |es| - 1;
      UpsertAllAt(t, es[..last], start, k);
      assert AsI64(es[last].logId.index) == start + last;
    }
  }

  /** Which entry the appended log holds at index k. */
  lemma AppendAt(log: RaftLog, es: seq<Entry>, k: int)
    requires CanAppend(log, es) && es != []
    ensures var start := es[0].logId.index;
            var next := Append(log, es);
            && next.first == log.first
            && next.Next() == (if log.Next() < start + |es| then start + |es| else log.Next())
            && (start <= k < start + |es| ==> next.entries[k - log.first] == es[k - start])
            && (log.first <= k < log.Next() && !(start <= k < start + |es|)
                ==> next.entries[k - log.first] == log.entries[k - log.first])
  {
  }

  lemma AppendRefines(t: Table, log: RaftLog, es: seq<Entry>)
    requires Represents(t, log) && CanAppend(log, es)
    ensures Represents(UpsertAll(t, es), Append(log, es))
  {
    if es != [] {
      var start := es[0].logId.index;
      var next := Append(log, es);
      forall k: I64 ensures RowMatches(UpsertAll(t, es), next, k) {
        UpsertAllAt(t, es, start, k);
        assert RowMatches(t, log, k);
        AppendAt(log, es, k);
      }
      forall i | 0 <= i < |next.entries| ensures next.entries[i].logId.index == next.first + i {
        AppendAt(log, es, next.first + i);
      }
    }
  }

  lemma TruncateRefines(t: Table, log: RaftLog, index: U64)
    requires Represents(t, log) && index <= I64_MAX
    ensures Represents(DeleteFrom(t, AsI64(index)), Truncate(log, index))
  {
    forall k: I64 ensures RowMatches(DeleteFrom(t, AsI64(index)), Truncate(log, index), k) {
      assert RowMatches(t, log, k);
    }
  }

  lemma PurgeRefines(t: Table, log: RaftLog, index: U64)
    requires Represents(t, log) && log.first <= index + 1 <= I64_MAX
    ensures Represents(DeleteUpTo(t, AsI64(index)), Purge(log, index))
  {
    forall k: I64 ensures RowMatches(DeleteUpTo(t, AsI64(index)), Purge(log, index), k) {
      assert RowMatches(t, log, k);
    }
  }

  lemma SliceStep(log: RaftLog, low: nat, high: nat)
    requires low < high
    ensures Slice(log, low, high) == (if log.first <= low < log.Next() then [log.entries[low - log.first]] else [])
                                     + Slice(log, low + 1, high)
  {
    if log.first <= low < log.Next() {
      var a := low - log.first;
      var b := if high >= log.Next() then |log.entries| else high - log.first;
      assert Slice(log, low, high) == log.entries[a..b];
      assert Slice(log, low + 1, high) == log.entries[a + 1..b];
      assert log.entries[a..b] == [log.entries[a]] + log.entries[a + 1..b];
    }
  }

  lemma CollectStep(t: Table, low: int, high: I64, e: Entry, es: seq<Entry>)
    requires -TWO_63 <= low < high && low in t && RowToEntry(low, t[low]) == Ok(e)
    requires CollectEntries(SelectRange(t, low + 1, high)) == Ok(es)
    ensures CollectEntries(SelectRange(t, low, high)) == Ok([e] + es)
  {
    var rows := SelectRange(t, low, high);
    assert rows[0] == (low, t[low]) && rows[1..] == SelectRange(t, low + 1, high);
  }

  lemma AnonymousStep(e: Entry, es: seq<Entry>)
    ensures AnonymousAll([e] + es) == [Anonymous(e)] + AnonymousAll(es)
  {
  }

  lemma SkipStep(t: Table, low: int, high: I64)
    requires -TWO_63 <= low < high && low !in t
    ensures SelectRange(t, low, high) == SelectRange(t, low + 1, high)
  {
    assert [] + SelectRange(t, low + 1, high) == SelectRange(t, low + 1, high);
  }

  lemma SelectNothing(t: Table, log: RaftLog, low: nat, high: I64)
    requires low >= high >= 0
    ensures CollectEntries(SelectRange(t, low, high)) == Ok(AnonymousAll(Slice(log, low, high)))
  {
    assert Slice(log, low, high) == [] && AnonymousAll([]) == [];
  }

  lemma {:induction false} SelectAll(t: Table, log: RaftLog, low: nat, high: I64)
    requires Represents(t, log) && 0 <= high
    ensures CollectEntries(SelectRange(t, low, high)) == Ok(AnonymousAll(Slice(log, low, high)))
    decreases high - low
  {
    hide SelectRange, CollectEntries, RowToEntry, Slice, AnonymousAll, EntryToRow;
    if low >= high {
      SelectNothing(t, log, low, high);
    } else {
      SelectAll(t, log, low + 1, high);
      SliceStep(log, low, high);
      assert RowMatches(t, log, low);
      var rest := Slice(log, low + 1, high);
      if low in t {
        var e := log.entries[low - log.first];
        RowRoundTrip(e);
        CollectStep(t, low, high, Anonymous(e), AnonymousAll(rest));
        AnonymousStep(e, rest);
      } else {
        SkipStep(t, low, high);
        assert [] + rest == rest;
      }
    }
  }

  /** The bound as the caller means it, on unbounded indices. */
  ghost function LowIndex(b: Bound): nat {
    match b case Included(n) => n case Excluded(n) => n + 1 case Unbounded => 0
  }

  ghost function HighIndex(b: Bound): nat {
    match b case Included(n) => n + 1 case Excluded(n) => n case Unbounded => I64_MAX
  }

  /** Every range read over indices that fit the key column is the abstract slice, in order. */
  lemma ReadRefines(t: Table, log: RaftLog, low: Bound, high: Bound)
    requires Represents(t, log)
    requires LowIndex(low) <= I64_MAX && HighIndex(high) <= I64_MAX
    ensures ReadEntries(t, low, high) == Ok(AnonymousAll(Slice(log, LowIndex(low), HighIndex(high))))
  {
    assert StartKey(low) == LowIndex(low) && EndKey(high) == HighIndex(high);
    SelectAll(t, log, LowIndex(low), HighIndex(high));
  }

  lemma LastLogIdRefines(t: Table, log: RaftLog)
    requires Represents(t, log)
    ensures LastLogId(t) == if log.entries == [] then None
                            else Some(Anonymous(log.entries[|log.entries| - 1]).logId)
  {
    if log.entries == [] {
      assert forall k | k in t :: RowMatches(t, log, k);
      assert t == map[];
    } else {
      var last := log.entries[|log.entries| - 1];
      var k: I64 := log.Next() - 1;
      assert RowMatches(t, log, k) && RowMatches(t, log, MaxKey(t.Keys));
      assert k in t && t[k] == EntryToRow(last);
      var m := MaxKey(t.Keys);
      assert m == k;
      assert AsU64(AsI64(last.logId.term)) == last.logId.term;
    }
  }

  ghost predicate HasKey(rows: seq<(I64, Row)>, k: I64) {
    exists i | 0 <= i < |rows| :: rows[i].0 == k
  }

  lemma {:induction false} SelectCovers(t: Table, low: int, high: I64, k: I64)
    requires -TWO_63 <= low
    ensures HasKey(SelectRange(t, low, high), k) <==> k in t && low <= k < high
    decreases high - low
  {
    if low < high {
      SelectCovers(t, low + 1, high, k);
      var rest := SelectRange(t, low + 1, high);
      var rows := SelectRange(t, low, high);
      if low in t {
        assert rows[0].0 == low;
        assert forall i | 0 <= i < |rest| :: rows[i + 1] == rest[i];
        assert forall i | 0 < i < |rows| :: rows[i] == rest[i - 1];
      } else {
        assert rows == rest;
      }
    }
  }

  /** The casts show: the unbounded read returns the entry stored for an index exactly when the index is
      below i64::MAX. An entry at i64::MAX or above is stored but never read. */
  lemma UnboundedReadSeesIff(t: Table, e: Entry)
    ensures HasKey(SelectRange(Upsert(t, e), StartKey(Unbounded), EndKey(Unbounded)), AsI64(e.logId.index))
            <==> e.logId.index < I64_MAX
  {
    SelectCovers(Upsert(t, e), 0, I64_MAX, AsI64(e.logId.index));
  }

  /** Truncating at an index keeps an entry exactly when the entry is below it, as long as both
      indices have the same top bit; an index of 2^63 truncates even the entry at index 0. */
  lemma TruncateKeepsIff(t: Table, e: Entry, index: U64)
    ensures AsI64(e.logId.index) in DeleteFrom(Upsert(t, e), AsI64(index))
            <==> if (e.logId.index < TWO_63) == (index < TWO_63) then e.logId.index < index else index < TWO_63
  {
  }
}
