/** The MERGE/CPTEC hourly downloader: the hourly date range, the remote and
    local name of each hour's GRIB2 file, what one download task does with the
    server's reply, and the batch of one task per hour, taken in sequence. */
module BaixaMerge {
  import opened Wrappers
  import opened Calendar
  import opened Decimal

  const UrlBase := "https://ftp.cptec.inpe.br/modelos/tempo/MERGE/GPM/HOURLY"
  const OutputDir := "MERGE/horario"
  const Prefix := "MERGE_CPTEC_"
  const Extension := ".grib2"

  /** The configured range "2019-08-13" to "2023-12-31": dates without a time. */
  const Inicio := Date(2019, 8, 13)
  const Fim := Date(2023, 12, 31)

  // ---------------------------------------------------------------------------
  // Hourly enumeration

  /** Every hour from start up to and including end, one hour apart. */
  function HourlyRange(start: Timestamp, end: Timestamp): (r: seq<Timestamp>)
    requires start.Valid() && end.Valid()
    ensures |r| == if HourNumber(end) < HourNumber(start) then 0 else HourNumber(end) - HourNumber(start) + 1
    ensures forall i :: 0 <= i < |r| ==> r[i].Valid() && HourNumber(r[i]) == HourNumber(start) + i
    decreases HourNumber(end) - HourNumber(start) + 1
  {
    if HourNumber(end) < HourNumber(start) then []
    else [start] + HourlyRange(NextHour(start), end)
  }

  /** pd.date_range(start=inicio, end=fim, freq="H"): a date without a time
      stands for its midnight, at both ends. */
  function DateRange(inicio: Date, fim: Date): seq<Timestamp>
    requires inicio.Valid() && fim.Valid()
  {
    HourlyRange(Midnight(inicio), Midnight(fim))
  }

  /** The range starts at the start date's midnight, ends at the END DATE'S
      MIDNIGHT (not 23:00), holds 24 hours per day in between plus one, steps by
      exactly one hour and strictly increases, so it has no duplicates. */
  lemma DateRangeShape(inicio: Date, fim: Date)
    requires inicio.Valid() && fim.Valid()
    ensures var r := DateRange(inicio, fim);
      && |r| == (if DayNumber(fim) < DayNumber(inicio) then 0 else 24 * (DayNumber(fim) - DayNumber(inicio)) + 1)
      && (r != [] ==> r[0] == Midnight(inicio) && r[|r| - 1] == Midnight(fim))
      && (forall i :: 0 <= i < |r| - 1 ==> r[i + 1] == NextHour(r[i]))
      && (forall i, j :: 0 <= i < j < |r| ==> FieldsBefore(r[i], r[j]))
  {
    var r := DateRange(inicio, fim);
    var s, e := Midnight(inicio), Midnight(fim);
    if r != [] {
      HourNumberOrder(r[0], s);
      HourNumberOrder(r[|r| - 1], e);
    }
    forall i | 0 <= i < |r| - 1 ensures r[i + 1] == NextHour(r[i]) {
      HourNumberOrder(r[i + 1], NextHour(r[i]));
    }
    forall i, j | 0 <= i < j < |r| ensures FieldsBefore(r[i], r[j]) {
      HourNumberOrder(r[i], r[j]);
    }
  }

  /** The configured run: 1601 days from 2019-08-13 to 2023-12-31, so 38425
      hours, the last one being 2023-12-31 00:00. */
  lemma ArchiveRange()
    ensures var r := DateRange(Inicio, Fim);
      && |r| == 38425
      && r[0] == Timestamp(2019, 8, 13, 0)
      && r[|r| - 1] == Timestamp(2023, 12, 31, 0)
  {
    ArchiveDays();
    DateRangeShape(Inicio, Fim);
  }

  lemma ArchiveDays()
    ensures DayNumber(Fim) - DayNumber(Inicio) == 1601
  {
    YearStep(2019);
    YearStep(2020);
    YearStep(2021);
    YearStep(2022);
  }

  // ---------------------------------------------------------------------------
  // Names

  /** The year as str() writes it, then month, day and hour as two digits. */
  function Stamp(t: Timestamp): string
  {
    IntToString(t.year) + (Pad(t.month, 2) + (Pad(t.day, 2) + Pad(t.hour, 2)))
  }

  /** MERGE_CPTEC_YYYYMMDDHH.grib2 */
  function FileName(t: Timestamp): string
  {
    Prefix + (Stamp(t) + Extension)
  }

  /** base/YYYY/MM/DD/file */
  function RequestUrl(t: Timestamp): string
  {
    UrlBase + "/" + IntToString(t.year) + "/" + Pad(t.month, 2) + "/" + Pad(t.day, 2) + "/" + FileName(t)
  }

  /** Path(diretorio, arquivo) */
  function LocalPath(name: string): string {
    OutputDir + "/" + name
  }

  predicate FourDigitYear(t: Timestamp) {
    1000 <= t.year <= 9999
  }

  lemma StampDigits(t: Timestamp)
    requires t.Valid() && FourDigitYear(t)
    ensures var s := Stamp(t);
      && |s| == 10 && AllDigits(s)
      && s == Pad(t.year, 4) + (Pad(t.month, 2) + (Pad(t.day, 2) + Pad(t.hour, 2)))
  {
    Pow10Values();
    NatToStringIsPad(t.year, 4);
  }

  /** For a four-digit year the name is 28 characters: the prefix, ten digits
      holding year, month, day and hour in that order, and the extension. */
  lemma FileNameLayout(t: Timestamp)
    requires t.Valid() && FourDigitYear(t)
    ensures var n := FileName(t);
      && |n| == 28
      && n[..12] == Prefix && n[22..] == Extension && AllDigits(n[12..22])
      && ParseDigits(n[12..16]) == t.year && ParseDigits(n[16..18]) == t.month
      && ParseDigits(n[18..20]) == t.day && ParseDigits(n[20..22]) == t.hour
  {
    StampDigits(t);
    NameSlices(t);
    ParsePad(t.year, 4);
    ParsePad(t.month, 2);
    ParsePad(t.day, 2);
    ParsePad(t.hour, 2);
  }

  /** Distinct hours never share a file name, whatever the year. */
  lemma FileNameInjective(a: Timestamp, b: Timestamp)
    requires a.Valid() && b.Valid()
    requires FileName(a) == FileName(b)
    ensures a == b
  {
    var ra := Pad(a.month, 2) + (Pad(a.day, 2) + Pad(a.hour, 2));
    var rb := Pad(b.month, 2) + (Pad(b.day, 2) + Pad(b.hour, 2));
    SplitAt(Prefix, Stamp(a) + Extension, Prefix, Stamp(b) + Extension);
    SplitAt(Stamp(a), Extension, Stamp(b), Extension);
    SplitAt(IntToString(a.year), ra, IntToString(b.year), rb);
    IntToStringInjective(a.year, b.year);
    SplitAt(Pad(a.month, 2), Pad(a.day, 2) + Pad(a.hour, 2), Pad(b.month, 2), Pad(b.day, 2) + Pad(b.hour, 2));
    SplitAt(Pad(a.day, 2), Pad(a.hour, 2), Pad(b.day, 2), Pad(b.hour, 2));
    PadInjective(a.month, b.month, 2);
    PadInjective(a.day, b.day, 2);
    PadInjective(a.hour, b.hour, 2);
  }

  /** A fixed-width field followed by anything compares on the field first. */
  lemma PadThenOrder(x: nat, y: nat, w: nat, rx: string, ry: string)
    requires x < Pow10(w) && y < Pow10(w)
    ensures StrLess(Pad(x, w) + rx, Pad(y, w) + ry) <==> x < y || (x == y && StrLess(rx, ry))
  {
    StrLessConcat(Pad(x, w), rx, Pad(y, w), ry);
    PadOrder(x, y, w);
    if Pad(x, w) == Pad(y, w) {
      PadInjective(x, y, w);
    }
  }

  /** With four-digit years, sorting stamps as strings sorts them chronologically. */
  lemma StampOrder(a: Timestamp, b: Timestamp)
    requires a.Valid() && b.Valid() && FourDigitYear(a) && FourDigitYear(b)
    ensures StrLess(Stamp(a), Stamp(b)) <==> FieldsBefore(a, b)
  {
    NatToStringIsPad(a.year, 4);
    NatToStringIsPad(b.year, 4);
    Pow10Values();
    var da, db := Pad(a.day, 2) + Pad(a.hour, 2), Pad(b.day, 2) + Pad(b.hour, 2);
    var ma, mb := Pad(a.month, 2) + da, Pad(b.month, 2) + db;
    PadThenOrder(a.year, b.year, 4, ma, mb);
    PadThenOrder(a.month, b.month, 2, da, db);
    PadThenOrder(a.day, b.day, 2, Pad(a.hour, 2), Pad(b.hour, 2));
    PadOrder(a.hour, b.hour, 2);
  }

  /** With four-digit years, sorting names as strings sorts them chronologically. */
  lemma FileNameOrder(a: Timestamp, b: Timestamp)
    requires a.Valid() && b.Valid() && FourDigitYear(a) && FourDigitYear(b)
    ensures StrLess(FileName(a), FileName(b)) <==> HourNumber(a) < HourNumber(b)
  {
    StampDigits(a);
    StampDigits(b);
    StrLessIrreflexive(Prefix);
    StrLessConcat(Prefix, Stamp(a) + Extension, Prefix, Stamp(b) + Extension);
    StrLessConcat(Stamp(a), Extension, Stamp(b), Extension);
    StrLessIrreflexive(Extension);
    StampOrder(a, b);
    HourNumberOrder(a, b);
  }

  /** The URL ends with the file name and its year, month and day segments are
      the digits the name carries at those positions. */
  lemma RequestUrlSegments(t: Timestamp)
    requires t.Valid() && FourDigitYear(t)
    ensures var n := FileName(t);
      RequestUrl(t) == UrlBase + "/" + n[12..16] + "/" + n[16..18] + "/" + n[18..20] + "/" + n
  {
    NameSlices(t);
    NatToStringIsPad(t.year, 4);
  }

  /** The padded fields sit at fixed positions of the name. */
  lemma NameSlices(t: Timestamp)
    requires t.Valid() && FourDigitYear(t)
    ensures var n := FileName(t);
      && |n| == 28 && n[22..] == Extension
      && n[12..16] == Pad(t.year, 4) && n[16..18] == Pad(t.month, 2)
      && n[18..20] == Pad(t.day, 2) && n[20..22] == Pad(t.hour, 2)
  {
    StampSlices(t);
    var n := FileName(t);
    var s := Stamp(t);
    assert |s| == 10 by { StampDigits(t); }
    assert n[12..] == s + Extension;
    assert n[12..16] == s[..4] && n[16..18] == s[4..6] && n[18..20] == s[6..8] && n[20..22] == s[8..];
  }

  lemma StampSlices(t: Timestamp)
    requires t.Valid() && FourDigitYear(t)
    ensures var s := Stamp(t);
      && |s| == 10
      && s[..4] == Pad(t.year, 4) && s[4..6] == Pad(t.month, 2)
      && s[6..8] == Pad(t.day, 2) && s[8..] == Pad(t.hour, 2)
  {
    StampDigits(t);
    var s := Stamp(t);
    var m := Pad(t.month, 2) + (Pad(t.day, 2) + Pad(t.hour, 2));
    assert s == Pad(t.year, 4) + m;
    assert s[..4] == Pad(t.year, 4) && s[4..] == m;
    assert s[4..6] == m[..2] && s[6..8] == m[2..4] && s[8..] == m[4..];
  }

  // ---------------------------------------------------------------------------
  // One task and the batch

  type Bytes = seq<bv8>

  /** Files by path. */
  type FileSystem = map<string, Bytes>

  /** What client.get returns: a status and body, or an exception (connection
      failure, timeout) that leaves obter_merge. */
  datatype Response = Response(status: int, content: Bytes) | TransportError

  /** What a finished task prints: "<file> [ok]", or the failure notice
      followed by the URL it tried. */
  datatype Report = Saved(file: string) | NotObtained(file: string, url: string)

  function ReportLines(r: Report): seq<string> {
    match r
    case Saved(file) => [file + OkMark]
    case NotObtained(file, url) => [Notice + file + ".", url]
  }

  const OkMark := " [ok]"
  const Notice := "Não foi possível obter o "

  /** Whether the name is printed at position i of the line. */
  predicate NameAt(line: string, name: string, i: nat) {
    i + |name| <= |line| && line[i..i + |name|] == name
  }

  /** Whether a printed line shows the name at some position. */
  predicate Mentions(line: string, name: string) {
    exists i: nat :: i <= |line| && NameAt(line, name, i)
  }

  /** Whether a printed line is a success line. */
  predicate MarksOk(line: string) {
    |line| >= |OkMark| && line[|line| - |OkMark|..] == OkMark
  }

  /** What one finished task prints: the first line names the task's file; a
      200 prints that one line and it carries the "[ok]" mark; any other status
      prints a second line, the URL it tried, and no line with the mark. */
  lemma ReportLinesMeaning(t: Timestamp, r: Response)
    requires r.Response?
    ensures var lines := ReportLines(TaskReport(t, r));
      && |lines| == (if IsOk(r) then 1 else 2)
      && Mentions(lines[0], FileName(t))
      && (IsOk(r) <==> MarksOk(lines[0]))
      && (!IsOk(r) ==> lines[1] == RequestUrl(t) && !MarksOk(lines[1]))
  {
    var n := FileName(t);
    var lines := ReportLines(TaskReport(t, r));
    if IsOk(r) {
      assert NameAt(lines[0], n, 0);
    } else {
      assert NameAt(lines[0], n, |Notice|);
      assert lines[0][|lines[0]| - 1] == '.';
      var u := RequestUrl(t);
      assert u[|u| - 1] == n[|n| - 1] == '2';
    }
  }

  predicate IsOk(r: Response) {
    r.Response? && r.status == 200
  }

  /** What a completed reply does to the file at path p: status 200 stores its
      body there, anything else leaves the files alone. */
  function Store(files: FileSystem, p: string, r: Response): FileSystem
  {
    if IsOk(r) then files[p := r.content] else files
  }

  /** The file system after one completed task. */
  function AfterTask(files: FileSystem, t: Timestamp, r: Response): FileSystem
  {
    Store(files, LocalPath(FileName(t)), r)
  }

  /** The report of one completed task. */
  function TaskReport(t: Timestamp, r: Response): Report
  {
    if IsOk(r) then Saved(FileName(t)) else NotObtained(FileName(t), RequestUrl(t))
  }

  /** obter_merge: a reply is one completed task, whose effect on the files and
      whose report are AfterTask and TaskReport (TaskMeaning spells them out);
      an exception from the request leaves the files as they were and ends
      without a report. */
  method ObterMerge(t: Timestamp, r: Response, files: FileSystem) returns (files': FileSystem, report: Option<Report>)
    ensures r.TransportError? ==> files' == files && report == None
    ensures r.Response? ==> files' == AfterTask(files, t, r) && report == Some(TaskReport(t, r))
  {
    files' := files;
    if r.TransportError? {
      report := None;
      return;
    }
    var arquivo := FileName(t);
    var url := RequestUrl(t);
    if r.status == 200 {
      files' := files'[LocalPath(arquivo) := r.content];
      report := Some(Saved(arquivo));
    } else {
      report := Some(NotObtained(arquivo, url));
    }
  }

  /** What one completed task does: status 200 stores the body under the local
      name of the hour's file, replacing any earlier file there, and reports [ok];
      any other status stores nothing and reports the notice with the URL. */
  lemma TaskMeaning(files: FileSystem, t: Timestamp, r: Response)
    requires r.Response?
    ensures r.status == 200 ==>
      && AfterTask(files, t, r) == files[LocalPath(FileName(t)) := r.content]
      && TaskReport(t, r) == Saved(FileName(t))
    ensures r.status != 200 ==>
      && AfterTask(files, t, r) == files
      && TaskReport(t, r) == NotObtained(FileName(t), RequestUrl(t))
  {
  }

  /** Index of the first reply that raised, or |rs| if none did. */
  function FirstRaised(rs: seq<Response>): (k: nat)
    ensures k <= |rs|
    ensures forall i :: 0 <= i < k ==> rs[i].Response?
    ensures k < |rs| ==> rs[k].TransportError?
  {
    if rs == [] then 0
    else if rs[0].TransportError? then 0
    else 1 + FirstRaised(rs[1..])
  }

  /** The local path of each hour's file. */
  function Paths(ts: seq<Timestamp>): (ps: seq<string>)
    ensures |ps| == |ts|
    ensures forall i :: 0 <= i < |ts| ==> ps[i] == LocalPath(FileName(ts[i]))
  {
    seq(|ts|, i requires 0 <= i < |ts| => LocalPath(FileName(ts[i])))
  }

  /** The file system after the first k tasks, one after the other, task i
      storing at path ps[i]. */
  function Written(files: FileSystem, ps: seq<string>, rs: seq<Response>, k: nat): FileSystem
    requires |ps| == |rs| && k <= |ps|
  {
    if k == 0 then files else Store(Written(files, ps, rs, k - 1), ps[k - 1], rs[k - 1])
  }

  /** The files the first k tasks write, each path holding the last body written to it. */
  function Writes(ps: seq<string>, rs: seq<Response>, k: nat): FileSystem
    requires |ps| == |rs| && k <= |ps|
  {
    if k == 0 then map[] else Store(Writes(ps, rs, k - 1), ps[k - 1], rs[k - 1])
  }

  /** The reports of the first k tasks, in order. */
  function TaskReports(ts: seq<Timestamp>, rs: seq<Response>, k: nat): (r: seq<Report>)
    requires |ts| == |rs| && k <= |ts|
    ensures |r| == k
  {
    if k == 0 then [] else TaskReports(ts, rs, k - 1) + [TaskReport(ts[k - 1], rs[k - 1])]
  }

  /** main(): one task per timestamp.  Tasks are taken in order; an exception
      from a request ends the run (gather propagates it and the remaining tasks
      are cancelled).  Every task taken before that ends in exactly one report:
      [ok] exactly when the status was 200, a notice with the URL otherwise. */
  method DownloadAll(ts: seq<Timestamp>, rs: seq<Response>, files: FileSystem)
    returns (files': FileSystem, reports: seq<Report>, completed: bool)
    requires |rs| == |ts|
    ensures var k := FirstRaised(rs);
      && completed == (k == |ts|)
      && |reports| == k
      && files' == Written(files, Paths(ts), rs, k)
      && forall i :: 0 <= i < k ==>
           && reports[i].file == FileName(ts[i])
           && (reports[i].Saved? <==> rs[i].status == 200)
           && (reports[i].NotObtained? ==> reports[i].url == RequestUrl(ts[i]))
  {
    files', reports, completed := RunTasks(ts, rs, files);
    ReportsMeaning(ts, rs, FirstRaised(rs));
  }

  /** The tasks one after the other, up to the first reply that raised: the
      files and reports are those of the tasks taken. */
  method RunTasks(ts: seq<Timestamp>, rs: seq<Response>, files: FileSystem)
    returns (files': FileSystem, reports: seq<Report>, completed: bool)
    requires |rs| == |ts|
    ensures completed == (FirstRaised(rs) == |ts|)
    ensures files' == Written(files, Paths(ts), rs, FirstRaised(rs))
    ensures reports == TaskReports(ts, rs, FirstRaised(rs))
  {
    files' := files;
    reports := [];
    completed := true;
    var i := 0;
    while i < |ts|
      invariant 0 <= i <= FirstRaised(rs)
      invariant files' == Written(files, Paths(ts), rs, i)
      invariant reports == TaskReports(ts, rs, i)
    {
      TaskStep(files, ts, rs, i);
      var report;
      files', report := ObterMerge(ts[i], rs[i], files');
      if report.None? {
        FirstRaisedAt(rs, i);
        completed := false;
        break;
      }
      FirstRaisedPast(rs, i);
      reports := reports + [report.value];
      i := i + 1;
    }
  }

  /** One more task extends the files and reports of the tasks before it. */
  lemma TaskStep(files: FileSystem, ts: seq<Timestamp>, rs: seq<Response>, i: nat)
    requires |ts| == |rs| && i < |ts|
    ensures Written(files, Paths(ts), rs, i + 1) == AfterTask(Written(files, Paths(ts), rs, i), ts[i], rs[i])
    ensures TaskReports(ts, rs, i + 1) == TaskReports(ts, rs, i) + [TaskReport(ts[i], rs[i])]
  {
  }

  /** The first reply that raised is where the bound stops. */
  lemma FirstRaisedAt(rs: seq<Response>, i: nat)
    requires i < |rs| && i <= FirstRaised(rs) && rs[i].TransportError?
    ensures i == FirstRaised(rs)
  {
  }

  /** A reply that did not raise, before the first one that did, moves the
      bound past it. */
  lemma FirstRaisedPast(rs: seq<Response>, i: nat)
    requires i < |rs| && i <= FirstRaised(rs) && rs[i].Response?
    ensures i + 1 <= FirstRaised(rs)
  {
  }

  /** What the reports of the first k tasks say about their replies: one
      report per task, naming its file, [ok] exactly for status 200, and the
      notice with the URL otherwise. */
  lemma ReportsMeaning(ts: seq<Timestamp>, rs: seq<Response>, k: nat)
    requires |ts| == |rs| && k <= FirstRaised(rs)
    ensures forall i :: 0 <= i < k ==>
      && TaskReports(ts, rs, k)[i].file == FileName(ts[i])
      && (TaskReports(ts, rs, k)[i].Saved? <==> rs[i].status == 200)
      && (TaskReports(ts, rs, k)[i].NotObtained? ==> TaskReports(ts, rs, k)[i].url == RequestUrl(ts[i]))
  {
    forall i | 0 <= i < k
      ensures && TaskReports(ts, rs, k)[i].file == FileName(ts[i])
              && (TaskReports(ts, rs, k)[i].Saved? <==> rs[i].status == 200)
              && (TaskReports(ts, rs, k)[i].NotObtained? ==> TaskReports(ts, rs, k)[i].url == RequestUrl(ts[i]))
    {
      ReportAt(ts, rs, k, i);
    }
  }

  /** The i-th of the first k reports is the report of task i. */
  lemma {:induction false} ReportAt(ts: seq<Timestamp>, rs: seq<Response>, k: nat, i: nat)
    requires |ts| == |rs| && i < k <= |ts|
    ensures TaskReports(ts, rs, k)[i] == TaskReport(ts[i], rs[i])
  {
    var p := TaskReports(ts, rs, k - 1);
    var last := TaskReport(ts[k - 1], rs[k - 1]);
    assert TaskReports(ts, rs, k) == p + [last];
    if i < k - 1 {
      ReportAt(ts, rs, k - 1, i);
      assert TaskReports(ts, rs, k)[i] == p[i];
    } else {
      assert TaskReports(ts, rs, k)[i] == last;
    }
  }

  /** Running the tasks over a file system overlays what they write on it. */
  lemma {:induction false} WrittenOverlay(files: FileSystem, ps: seq<string>, rs: seq<Response>, k: nat)
    requires |ps| == |rs| && k <= |ps|
    ensures Written(files, ps, rs, k) == files + Writes(ps, rs, k)
  {
    if k > 0 {
      WrittenOverlay(files, ps, rs, k - 1);
    }
  }

  /** Only status 200 writes: a path is written exactly when one of the tasks
      that got status 200 stores at that path. */
  lemma {:induction false} WritesKeys(ps: seq<string>, rs: seq<Response>, k: nat, p: string)
    requires |ps| == |rs| && k <= |ps|
    ensures p in Writes(ps, rs, k) <==> exists i :: 0 <= i < k && IsOk(rs[i]) && ps[i] == p
  {
    if k > 0 {
      WritesKeys(ps, rs, k - 1, p);
    }
  }

  /** Over distinct paths, the file of a task that got status 200 holds exactly
      the body of its reply: no other task writes that path. */
  lemma {:induction false} WritesContent(ps: seq<string>, rs: seq<Response>, k: nat, i: nat)
    requires |ps| == |rs| && k <= |ps|
    requires forall j, l :: 0 <= j < l < |ps| ==> ps[j] != ps[l]
    requires i < k && IsOk(rs[i])
    ensures ps[i] in Writes(ps, rs, k) && Writes(ps, rs, k)[ps[i]] == rs[i].content
  {
    if i < k - 1 {
      WritesContent(ps, rs, k - 1, i);
    }
  }

  /** Distinct hours have distinct local paths. */
  lemma PathsDistinct(ts: seq<Timestamp>)
    requires forall j :: 0 <= j < |ts| ==> ts[j].Valid()
    requires forall j, l :: 0 <= j < l < |ts| ==> ts[j] != ts[l]
    ensures forall j, l :: 0 <= j < l < |ts| ==> Paths(ts)[j] != Paths(ts)[l]
  {
    forall j, l | 0 <= j < l < |ts| ensures Paths(ts)[j] != Paths(ts)[l] {
      if Paths(ts)[j] == Paths(ts)[l] {
        LocalPathInjective(FileName(ts[j]), FileName(ts[l]));
        FileNameInjective(ts[j], ts[l]);
      }
    }
  }

  /** Over distinct hours, each file fetched with status 200 holds exactly the
      body of its own reply after the batch. */
  lemma DownloadedContent(files: FileSystem, ts: seq<Timestamp>, rs: seq<Response>, k: nat, i: nat)
    requires |ts| == |rs| && k <= |ts| && forall j :: 0 <= j < |ts| ==> ts[j].Valid()
    requires forall j, l :: 0 <= j < l < |ts| ==> ts[j] != ts[l]
    requires i < k && IsOk(rs[i])
    ensures LocalPath(FileName(ts[i])) in Written(files, Paths(ts), rs, k)
    ensures Written(files, Paths(ts), rs, k)[LocalPath(FileName(ts[i]))] == rs[i].content
  {
    PathsDistinct(ts);
    WritesContent(Paths(ts), rs, k, i);
    WrittenOverlay(files, Paths(ts), rs, k);
  }

  lemma LocalPathInjective(a: string, b: string)
    requires LocalPath(a) == LocalPath(b)
    ensures a == b
  {
    assert a == LocalPath(a)[|OutputDir| + 1..];
    assert b == LocalPath(b)[|OutputDir| + 1..];
  }

  /** Re-running the same tasks with the same replies changes nothing more:
      every file is overwritten with the same content. */
  lemma RerunIdempotent(files: FileSystem, ps: seq<string>, rs: seq<Response>, k: nat)
    requires |ps| == |rs| && k <= |ps|
    ensures Written(Written(files, ps, rs, k), ps, rs, k) == Written(files, ps, rs, k)
  {
    WrittenOverlay(files, ps, rs, k);
    WrittenOverlay(Written(files, ps, rs, k), ps, rs, k);
    var w := Writes(ps, rs, k);
    assert (files + w) + w == files + w;
  }

  /** A file at a path where no task with status 200 stores keeps its content. */
  lemma WrittenElsewhereUnchanged(files: FileSystem, ps: seq<string>, rs: seq<Response>, k: nat, p: string)
    requires |ps| == |rs| && k <= |ps|
    requires forall i :: 0 <= i < k && IsOk(rs[i]) ==> ps[i] != p
    ensures p in Written(files, ps, rs, k) <==> p in files
    ensures p in files ==> Written(files, ps, rs, k)[p] == files[p]
  {
    WrittenOverlay(files, ps, rs, k);
    WritesKeys(ps, rs, k, p);
  }

  lemma ScenarioFields()
    ensures Pad(2020, 4) == "2020" && Pad(1, 2) == "01" && Pad(0, 2) == "00"
  {
    assert Pad(2, 1) == "2" && Pad(20, 2) == "20" && Pad(202, 3) == "202";
  }

  /** The hour 2020-01-01 00:00 is stamped "2020010100". */
  lemma ScenarioStamp()
    ensures Stamp(Timestamp(2020, 1, 1, 0)) == "2020010100"
  {
    Pow10Values();
    NatToStringIsPad(2020, 4);
    ScenarioFields();
  }

  /** A one-hour run, 2020-01-01 00:00, whose request answers 200 with a body,
      leaves exactly that body under MERGE/horario/MERGE_CPTEC_2020010100.grib2
      and reports it as saved. */
  lemma OneHourScenario(body: Bytes)
    ensures var t := Timestamp(2020, 1, 1, 0);
      && DateRange(Date(2020, 1, 1), Date(2020, 1, 1)) == [t]
      && Written(map[], Paths([t]), [Response(200, body)], 1)
         == map[OutputDir + "/" + (Prefix + ("2020010100" + Extension)) := body]
      && TaskReport(t, Response(200, body)) == Saved(Prefix + ("2020010100" + Extension))
  {
    var t := Timestamp(2020, 1, 1, 0);
    DateRangeShape(Date(2020, 1, 1), Date(2020, 1, 1));
    ScenarioStamp();
  }
}
