/**
 The audit logger: every message becomes one record `HH:mm:ss - <message>`
 followed by a newline, appended to `logs/yyyy-MM-dd.log`. The clock is an
 input (each LogData call reads it twice: once for the file name, once for
 the time of day) and the log directory is a map from file name to the
 records appended to that file, which only ever grows.
 */
module AuditLog {
  import opened Wrappers
  import opened Paths
  import opened Observation

  type Year = y: int | 1 <= y <= 9999 witness 1
  type Month = m: int | 1 <= m <= 12 witness 1
  type Day = d: int | 1 <= d <= 31 witness 1
  type Hour = h: int | 0 <= h < 24
  type Minute = m: int | 0 <= m < 60
  type Second = s: int | 0 <= s < 60

  /** One reading of the local clock, as DateTime.Now gives it. */
  datatype Timestamp = Timestamp(year: Year, month: Month, day: Day,
                                 hour: Hour, minute: Minute, second: Second)

  datatype Date = Date(year: Year, month: Month, day: Day)

  function DateOf(t: Timestamp): Date {
    Date(t.year, t.month, t.day)
  }

  const LogDirectory: string := "logs"

  // Decimal digits

  predicate IsDigit(c: char) {
    '0' <= c <= '9'
  }

  predicate AllDigits(s: string) {
    forall i :: 0 <= i < |s| ==> IsDigit(s[i])
  }

  function DigitChar(d: int): char
    requires 0 <= d < 10
  {
    ('0' as int + d) as char
  }

  function DigitValue(c: char): int {
    c as int - '0' as int
  }

  /** The value of a string of decimal digits, most significant first. */
  function DecimalValue(s: string): (v: int)
    ensures AllDigits(s) ==> 0 <= v
  {
    if s == [] then 0 else DecimalValue(s[..|s| - 1]) * 10 + DigitValue(s[|s| - 1])
  }

  /** A number below 100 written with exactly two digits ("07"). */
  function Pad2(n: int): (s: string)
    requires 0 <= n < 100
    ensures |s| == 2 && AllDigits(s)
  {
    [DigitChar(n / 10), DigitChar(n % 10)]
  }

  /** A number below 10000 written with exactly four digits ("0042"). */
  function Pad4(n: int): (s: string)
    requires 0 <= n < 10000
    ensures |s| == 4 && AllDigits(s)
  {
    Pad2(n / 100) + Pad2(n % 100)
  }

  lemma Pad2Value(n: int)
    requires 0 <= n < 100
    ensures DecimalValue(Pad2(n)) == n
  {
    var s := Pad2(n);
    assert DigitValue(s[0]) == n / 10 && DigitValue(s[1]) == n % 10;
    assert s[..1][..0] == [];
    assert DecimalValue(s[..1]) == n / 10;
    assert DecimalValue(s) == (n / 10) * 10 + n % 10;
  }

  /** Two more digits at the end scale the value by a hundred. */
  lemma DecimalValueAppend2(a: string, b: string)
    requires |b| == 2
    ensures DecimalValue(a + b) == DecimalValue(a) * 100 + DecimalValue(b)
  {
    var ab := a + b;
    var a1 := a + [b[0]];
    assert ab[..|ab| - 1] == a1;
    assert a1[..|a1| - 1] == a;
    assert DecimalValue(a1) == DecimalValue(a) * 10 + DigitValue(b[0]);
    assert DecimalValue(ab) == DecimalValue(a1) * 10 + DigitValue(b[1]);
    assert b[..1][..0] == [];
    assert DecimalValue(b[..1]) == DigitValue(b[0]);
    assert DecimalValue(b) == DigitValue(b[0]) * 10 + DigitValue(b[1]);
  }

  lemma Pad4Value(n: int)
    requires 0 <= n < 10000
    ensures DecimalValue(Pad4(n)) == n
  {
    DecimalValueAppend2(Pad2(n / 100), Pad2(n % 100));
    Pad2Value(n / 100);
    Pad2Value(n % 100);
  }

  // Formatting of the clock reading

  /** DateTime.Now formatted as "yyyy-MM-dd". */
  function DateStamp(t: Timestamp): (s: string)
    ensures |s| == 10
  {
    Pad4(t.year) + "-" + Pad2(t.month) + "-" + Pad2(t.day)
  }

  /** DateTime.Now formatted as "HH:mm:ss". */
  function TimeStamp(t: Timestamp): (s: string)
    ensures |s| == 8
  {
    Pad2(t.hour) + ":" + Pad2(t.minute) + ":" + Pad2(t.second)
  }

  /** Reads a "yyyy-MM-dd" stamp back; None for anything else. */
  function ParseDateStamp(s: string): Option<Date> {
    if |s| == 10 && s[4] == '-' && s[7] == '-'
       && AllDigits(s[..4]) && AllDigits(s[5..7]) && AllDigits(s[8..])
    then
      var y, m, d := DecimalValue(s[..4]), DecimalValue(s[5..7]), DecimalValue(s[8..]);
      if 1 <= y <= 9999 && 1 <= m <= 12 && 1 <= d <= 31 then Some(Date(y, m, d)) else None
    else None
  }

  /** The date stamp is an encoding of the date: it reads back as the date. */
  lemma DateStampRoundTrip(t: Timestamp)
    ensures ParseDateStamp(DateStamp(t)) == Some(DateOf(t))
  {
    var s := DateStamp(t);
    assert s[..4] == Pad4(t.year);
    assert s[5..7] == Pad2(t.month);
    assert s[8..] == Pad2(t.day);
    Pad4Value(t.year);
    Pad2Value(t.month);
    Pad2Value(t.day);
  }

  // The log file and the line written to it

  /** The log file of a date: logs/yyyy-MM-dd.log. */
  function LogFileName(t: Timestamp): string {
    LogDirectory + [DirectorySeparator] + DateStamp(t) + ".log"
  }

  /**
   The name is "logs/", the ten characters of the date stamp, which read
   back as the date of the clock reading, and ".log".
   */
  lemma LogFileNameFormat(t: Timestamp)
    ensures var name := LogFileName(t);
            && |name| == 19
            && name[..5] == LogDirectory + [DirectorySeparator] && name[15..] == ".log"
            && ParseDateStamp(name[5..15]) == Some(DateOf(t))
  {
    assert LogFileName(t)[5..15] == DateStamp(t);
    DateStampRoundTrip(t);
  }

  /** The name is what Path.Combine("logs", $"{DateTime.Now:yyyy-MM-dd}.log") builds. */
  lemma LogFileNameIsCombined(t: Timestamp)
    ensures LogFileName(t) == Combine(LogDirectory, DateStamp(t) + ".log")
  {
    var name := DateStamp(t) + ".log";
    assert name[0] == Pad4(t.year)[0];
    assert LogDirectory + [DirectorySeparator] + DateStamp(t) + ".log"
           == LogDirectory + [DirectorySeparator] + name;
  }

  /**
   The log file is a function of the calendar date alone, and different
   dates get different files.
   */
  lemma LogFileNameIdentifiesDate(t1: Timestamp, t2: Timestamp)
    ensures LogFileName(t1) == LogFileName(t2) <==> DateOf(t1) == DateOf(t2)
  {
    LogFileNameFormat(t1);
    LogFileNameFormat(t2);
  }

  /** The record appended for `data`: $"{DateTime.Now:HH:mm:ss} - {data}\n". */
  function LogLine(t: Timestamp, data: string): (line: string)
    ensures |line| == |data| + 12
    ensures line[..8] == TimeStamp(t) && line[8..11] == " - "
    ensures line[11..|line| - 1] == data && line[|line| - 1] == '\n'
  {
    var line := TimeStamp(t) + " - " + data + "\n";
    assert line[11..|line| - 1] == data;
    line
  }

  /** What a log record says: the time of day and the message. */
  datatype LogRecord = LogRecord(hour: Hour, minute: Minute, second: Second, message: string)

  /** Reads a record back; None for anything not of the form LogLine writes. */
  function ParseLogLine(line: string): Option<LogRecord> {
    if |line| >= 12 && line[2] == ':' && line[5] == ':' && line[8..11] == " - "
       && line[|line| - 1] == '\n'
       && AllDigits(line[..2]) && AllDigits(line[3..5]) && AllDigits(line[6..8])
    then
      var h, m, s := DecimalValue(line[..2]), DecimalValue(line[3..5]), DecimalValue(line[6..8]);
      if h < 24 && m < 60 && s < 60 then Some(LogRecord(h, m, s, line[11..|line| - 1])) else None
    else None
  }

  /** Every record reads back as its time of day and exactly its message. */
  lemma LogLineRoundTrip(t: Timestamp, data: string)
    ensures ParseLogLine(LogLine(t, data)) == Some(LogRecord(t.hour, t.minute, t.second, data))
  {
    var line := LogLine(t, data);
    assert line[..2] == Pad2(t.hour);
    assert line[3..5] == Pad2(t.minute);
    assert line[6..8] == Pad2(t.second);
    assert line[8..11] == " - ";
    assert line[11..|line| - 1] == data;
    Pad2Value(t.hour);
    Pad2Value(t.minute);
    Pad2Value(t.second);
  }

  // The clock

  /**
   DateTime.Now: the successive readings of the local clock are an input to
   the model, and `taken` counts the readings made so far.
   */
  class Clock {
    const readings: nat -> Timestamp
    var taken: nat

    constructor (readings: nat -> Timestamp)
      ensures this.readings == readings && taken == 0
    {
      this.readings := readings;
      taken := 0;
    }

    method Now() returns (t: Timestamp)
      modifies this
      ensures t == readings(old(taken)) && taken == old(taken) + 1
    {
      t := readings(taken);
      taken := taken + 1;
    }
  }

  // The log directory

  /** The records of every log file, by file name. */
  type LogFiles = map<string, seq<string>>

  /** The records of one file; a file that does not exist has none. */
  function Lines(files: LogFiles, name: string): seq<string> {
    if name in files then files[name] else []
  }

  /** Every file is still there and keeps its records as a prefix. */
  ghost predicate AppendOnly(before: LogFiles, after: LogFiles) {
    forall name :: name in before ==> name in after && before[name] <= after[name]
  }

  /** File.AppendAllText(name, record), creating the file when it is missing. */
  /**
   File.AppendAllText(name, record), creating the file when it is missing:
   the named file exists afterwards and gains exactly the one record at its
   end.
   */
  function AppendRecord(files: LogFiles, name: string, record: string): (r: LogFiles)
    ensures name in r && Lines(r, name) == Lines(files, name) + [record]
  {
    files[name := Lines(files, name) + [record]]
  }

  /** An append removes no file and no record, and creates only the named file. */
  lemma AppendRecordIsAppendOnly(files: LogFiles, name: string, record: string)
    ensures var r := AppendRecord(files, name, record);
            AppendOnly(files, r) && r.Keys == files.Keys + {name}
  {
  }

  /** An append leaves every other file as it was. */
  lemma AppendRecordKeepsOthers(files: LogFiles, name: string, record: string, other: string)
    requires other != name
    ensures Lines(AppendRecord(files, name, record), other) == Lines(files, other)
  {
  }

  /**
   One LogData call: its message, the clock reading that names the file and
   the later reading that times the record.
   */
  datatype Entry = Entry(data: string, fileClock: Timestamp, lineClock: Timestamp)

  /** What one LogData call writes to the log directory. */
  function AppendEntry(files: LogFiles, e: Entry): LogFiles {
    AppendRecord(files, LogFileName(e.fileClock), LogLine(e.lineClock, e.data))
  }

  /** The LogData calls made one after the other. */
  function AppendAll(files: LogFiles, entries: seq<Entry>): LogFiles
    decreases |entries|
  {
    if entries == [] then files
    else AppendEntry(AppendAll(files, entries[..|entries| - 1]), entries[|entries| - 1])
  }

  /**
   The calls that log `messages` in turn on a clock whose first unused
   reading is `start`: each call takes two readings, first the file's, then
   the record's.
   */
  function Entries(messages: seq<string>, readings: nat -> Timestamp, start: nat): (entries: seq<Entry>)
    ensures |entries| == |messages|
  {
    seq(|messages|, i requires 0 <= i < |messages| =>
      Entry(messages[i], readings(start + 2 * i), readings(start + 2 * i + 1)))
  }

  /** Logging `a` and then `b` is logging `a + b`, the clock running on. */
  lemma EntriesConcat(a: seq<string>, b: seq<string>, readings: nat -> Timestamp,
                      start: nat, mid: nat)
    requires mid == start + 2 * |a|
    ensures Entries(a + b, readings, start) == Entries(a, readings, start) + Entries(b, readings, mid)
  {
    var l := Entries(a + b, readings, start);
    var l1 := Entries(a, readings, start);
    var l2 := Entries(b, readings, mid);
    forall i | 0 <= i < |a| ensures l[i] == l1[i] {
      assert (a + b)[i] == a[i];
    }
    forall j | 0 <= j < |b| ensures l[|a| + j] == l2[j] {
      assert (a + b)[|a| + j] == b[j];
      assert start + 2 * (|a| + j) == mid + 2 * j;
    }
    assert l == l1 + l2;
  }

  lemma {:induction false} AppendAllConcat(files: LogFiles, a: seq<Entry>, b: seq<Entry>)
    ensures AppendAll(files, a + b) == AppendAll(AppendAll(files, a), b)
    decreases |b|
  {
    if b == [] {
      assert a + b == a;
    } else {
      var b' := b[..|b| - 1];
      assert (a + b)[..|a + b| - 1] == a + b';
      AppendAllConcat(files, a, b');
    }
  }

  /** One LogData call is the run of calls for a single message. */
  lemma LogOfOne(files: LogFiles, message: string, readings: nat -> Timestamp, next: nat)
    ensures AppendEntry(files, Entry(message, readings(next), readings(next + 1)))
            == AppendAll(files, Entries([message], readings, next))
  {
    var e := Entry(message, readings(next), readings(next + 1));
    EntriesOfOne(message, readings, next);
    AppendAllOfOne(files, e);
  }

  /**
   A run of calls for `a` followed, with the clock at reading `mid`, by a
   run for `b` is the run for `a + b`.
   */
  lemma LogThenLog(f0: LogFiles, f1: LogFiles, f2: LogFiles, a: seq<string>, b: seq<string>,
                   readings: nat -> Timestamp, start: nat, mid: nat)
    requires mid == start + 2 * |a|
    requires f1 == AppendAll(f0, Entries(a, readings, start))
    requires f2 == AppendAll(f1, Entries(b, readings, mid))
    ensures f2 == AppendAll(f0, Entries(a + b, readings, start))
  {
    EntriesConcat(a, b, readings, start, mid);
    AppendAllConcat(f0, Entries(a, readings, start), Entries(b, readings, mid));
  }

  lemma EntriesOfOne(message: string, readings: nat -> Timestamp, next: nat)
    ensures Entries([message], readings, next) == [Entry(message, readings(next), readings(next + 1))]
  {
    var es := Entries([message], readings, next);
    assert es[0] == Entry(message, readings(next + 2 * 0), readings(next + 2 * 0 + 1));
    assert next + 2 * 0 == next;
  }

  lemma AppendAllOfOne(files: LogFiles, e: Entry)
    ensures AppendAll(files, [e]) == AppendEntry(files, e)
  {
    assert [e][..0] == [];
  }

  /** However many calls are made, no file loses or changes a record. */
  lemma {:induction false} AppendAllIsAppendOnly(files: LogFiles, entries: seq<Entry>)
    ensures AppendOnly(files, AppendAll(files, entries))
    decreases |entries|
  {
    if entries != [] {
      var last := entries[|entries| - 1];
      AppendAllIsAppendOnly(files, entries[..|entries| - 1]);
      AppendRecordIsAppendOnly(AppendAll(files, entries[..|entries| - 1]),
                               LogFileName(last.fileClock), LogLine(last.lineClock, last.data));
    }
  }

  /** The records the calls write, in order. */
  function Records(entries: seq<Entry>): (records: seq<string>)
    ensures |records| == |entries|
  {
    seq(|entries|, i requires 0 <= i < |entries| => LogLine(entries[i].lineClock, entries[i].data))
  }

  lemma RecordsSnoc(entries: seq<Entry>, e: Entry)
    ensures Records(entries + [e]) == Records(entries) + [LogLine(e.lineClock, e.data)]
  {
    var l := Records(entries + [e]);
    forall i | 0 <= i < |entries| ensures l[i] == Records(entries)[i] {
      assert (entries + [e])[i] == entries[i];
    }
    assert (entries + [e])[|entries|] == e;
    assert l == Records(entries) + [LogLine(e.lineClock, e.data)];
  }

  /**
   Calls whose file readings all name one file add their records to the
   end of it, in the order written, and leave every other file as it was.
   */
  lemma {:induction false} AppendAllToOneFile(files: LogFiles, entries: seq<Entry>, name: string)
    requires forall i :: 0 <= i < |entries| ==> LogFileName(entries[i].fileClock) == name
    ensures Lines(AppendAll(files, entries), name) == Lines(files, name) + Records(entries)
    ensures forall other :: other != name ==>
              Lines(AppendAll(files, entries), other) == Lines(files, other)
    decreases |entries|
  {
    if entries == [] {
      assert Records(entries) == [];
    } else {
      var prefix := entries[..|entries| - 1];
      var last := entries[|entries| - 1];
      assert prefix + [last] == entries;
      var line := LogLine(last.lineClock, last.data);
      var before := AppendAll(files, prefix);
      AppendAllToOneFile(files, prefix, name);
      assert LogFileName(last.fileClock) == name;
      assert AppendAll(files, entries) == AppendRecord(before, name, line);
      RecordsSnoc(prefix, last);
      RecordsAfter(Lines(files, name), Records(prefix), line);
      forall other | other != name
        ensures Lines(AppendAll(files, entries), other) == Lines(files, other)
      {
        AppendRecordKeepsOthers(before, name, line, other);
      }
    }
  }

  /** Records added after records already there. */
  lemma RecordsAfter(existing: seq<string>, added: seq<string>, record: string)
    ensures existing + added + [record] == existing + (added + [record])
  {
  }

  /** The records of logged messages are the messages, timed by the second readings. */
  lemma RecordsOfEntries(messages: seq<string>, readings: nat -> Timestamp, start: nat)
    ensures Records(Entries(messages, readings, start))
            == seq(|messages|, i requires 0 <= i < |messages| =>
                     LogLine(readings(start + 2 * i + 1), messages[i]))
  {
  }

  /**
   When every clock reading falls on one date, the messages all go to that
   date's file, and its records are the messages in the order logged, each
   timed by the second reading of its call; the files of all other dates
   are untouched.
   */
  lemma SameDateLog(files: LogFiles, messages: seq<string>, readings: nat -> Timestamp,
                    start: nat, t: Timestamp)
    requires forall k :: start <= k < start + 2 * |messages| ==> DateOf(readings(k)) == DateOf(t)
    ensures var after := AppendAll(files, Entries(messages, readings, start));
            && Lines(after, LogFileName(t))
               == Lines(files, LogFileName(t))
                  + seq(|messages|, i requires 0 <= i < |messages| =>
                          LogLine(readings(start + 2 * i + 1), messages[i]))
            && forall other :: DateOf(other) != DateOf(t) ==>
                 Lines(after, LogFileName(other)) == Lines(files, LogFileName(other))
  {
    var entries := Entries(messages, readings, start);
    var name := LogFileName(t);
    forall i | 0 <= i < |entries| ensures LogFileName(entries[i].fileClock) == name {
      assert DateOf(readings(start + 2 * i)) == DateOf(t);
      LogFileNameIdentifiesDate(readings(start + 2 * i), t);
    }
    AppendAllToOneFile(files, entries, name);
    RecordsOfEntries(messages, readings, start);
    forall other | DateOf(other) != DateOf(t) ensures LogFileName(other) != name {
      LogFileNameIdentifiesDate(other, t);
    }
  }

  /**
   The log directory on disk, shared by every request. Each record it
   appends is also a Log step for its observer.
   */
  class LogStore {
    var files: LogFiles
    var directoryExists: bool
    const observer: Observer

    constructor (files: LogFiles, directoryExists: bool, observer: Observer)
      ensures this.files == files && this.directoryExists == directoryExists
      ensures this.observer == observer
    {
      this.files := files;
      this.directoryExists := directoryExists;
      this.observer := observer;
    }

    /**
     LogData(data): name the file from one clock reading, create the log
     directory if it is missing, and append the record timed by a second
     reading.
     */
    method LogData(data: string, clock: Clock)
      modifies this, clock, observer
      ensures observer.steps == old(observer.steps) + [Log(data)]
      ensures clock.taken == old(clock.taken) + 2
      ensures files == AppendEntry(old(files), Entry(data, clock.readings(old(clock.taken)),
                                                       clock.readings(old(clock.taken) + 1)))
      ensures files == AppendAll(old(files), Entries([data], clock.readings, old(clock.taken)))
      ensures directoryExists
      ensures AppendOnly(old(files), files)
    {
      var fileStamp := clock.Now();
      var logFile := LogFileName(fileStamp);
      directoryExists := true;
      var lineStamp := clock.Now();
      AppendRecordIsAppendOnly(files, logFile, LogLine(lineStamp, data));
      LogOfOne(files, data, clock.readings, old(clock.taken));
      files := AppendRecord(files, logFile, LogLine(lineStamp, data));
      observer.steps := observer.steps + [Log(data)];
    }
  }
}
