/** The monthly aggregation script: it lists the hourly MERGE files, reads each
    file's UTC hour back from its name, groups the files by (year, month),
    visits the months in ascending order, skips months whose files all fail to
    open, shifts the remaining hours to Brasilia time and names one daily file
    per month. */
module Merge {
  import opened Wrappers
  import opened Calendar
  import opened Decimal
  import opened Sorting
  import opened Grouping
  import opened BaixaMerge

  // ---------------------------------------------------------------------------
  // Reading the hour back from a file name

  /** Index of the last c in s (str.rfind), -1 when there is none. */
  function LastIndex(s: string, c: char): (r: int)
    ensures -1 <= r < |s|
    ensures r >= 0 ==> s[r] == c
    ensures forall i :: r < i < |s| ==> s[i] != c
  {
    if s == [] then -1
    else if s[|s| - 1] == c then |s| - 1
    else LastIndex(s[..|s| - 1], c)
  }

  lemma LastIndexAt(s: string, c: char, k: int)
    requires 0 <= k < |s| && s[k] == c
    requires forall i :: k < i < |s| ==> s[i] != c
    ensures LastIndex(s, c) == k
  {
  }

  /** Path.stem: the name without its last suffix.  A dot at the start or at
      the end of the name does not begin a suffix. */
  function Stem(name: string): (r: string)
    ensures r <= name
  {
    var i := LastIndex(name, '.');
    if 0 < i < |name| - 1 then name[..i] else name
  }

  /** s.split("_")[-1]: what follows the last underscore, or all of s. */
  function LastField(s: string): string {
    s[LastIndex(s, '_') + 1..]
  }

  /** The last field holds no underscore and ends s, and it is all of s or
      starts right after an underscore: everything after the last '_', or the
      whole of s when s has none. */
  lemma LastFieldSpec(s: string)
    ensures '_' !in LastField(s)
    ensures |LastField(s)| <= |s| && LastField(s) == s[|s| - |LastField(s)|..]
    ensures |LastField(s)| == |s| || s[|s| - |LastField(s)| - 1] == '_'
    ensures '_' !in s <==> LastField(s) == s
  {
    var i := LastIndex(s, '_');
    if i >= 0 {
      assert s[i] == '_' && LastField(s) == s[i + 1..];
      assert LastField(s) != s by {
        assert |LastField(s)| < |s|;
      }
    }
  }

  /** The first and the last whole hour a pandas Timestamp (nanoseconds since
      1970 in 64 bits) can hold: 1677-09-21 00:12:43 to 2262-04-11 23:47:16. */
  const FirstHour := Timestamp(1677, 9, 21, 1)
  const LastHour := Timestamp(2262, 4, 11, 23)

  predicate InPandasRange(t: Timestamp) {
    !FieldsBefore(t, FirstHour) && !FieldsBefore(LastHour, t)
  }

  lemma PandasRangeFourDigits(t: Timestamp)
    requires InPandasRange(t)
    ensures FourDigitYear(t)
  {
  }

  /** pd.to_datetime(s, format="%Y%m%d%H") on ten characters: four digits of
      year, then two each of month, day and hour; a date that does not exist,
      an hour past 23 or an instant outside the pandas range raises. */
  function ParseStamp(s: string): (r: Option<Timestamp>)
    ensures r.Some? ==> r.value.Valid() && InPandasRange(r.value)
  {
    if |s| == 10 && AllDigits(s) then
      var t := Timestamp(
        1000 * DigitValue(s[0]) + 100 * DigitValue(s[1]) + 10 * DigitValue(s[2]) + DigitValue(s[3]),
        10 * DigitValue(s[4]) + DigitValue(s[5]),
        10 * DigitValue(s[6]) + DigitValue(s[7]),
        10 * DigitValue(s[8]) + DigitValue(s[9]));
      if t.Valid() && InPandasRange(t) then Some(t) else None
    else None
  }

  lemma ParseTwo(x: string)
    requires |x| == 2 && AllDigits(x)
    ensures ParseDigits(x) == 10 * DigitValue(x[0]) + DigitValue(x[1])
  {
    assert x[..1][..0] == [];
    assert ParseDigits(x[..1]) == DigitValue(x[0]);
    assert x[..|x| - 1] == x[..1];
  }

  lemma ParseFour(x: string)
    requires |x| == 4 && AllDigits(x)
    ensures ParseDigits(x) == 1000 * DigitValue(x[0]) + 100 * DigitValue(x[1]) + 10 * DigitValue(x[2]) + DigitValue(x[3])
  {
    assert x[..3][..2] == x[..2];
    ParseTwo(x[..2]);
    assert x[..3][2] == x[2];
  }

  /** The fields ParseStamp reads are the numbers the four digit groups denote. */
  lemma DigitFields(s: string)
    requires |s| == 10 && AllDigits(s)
    ensures 1000 * DigitValue(s[0]) + 100 * DigitValue(s[1]) + 10 * DigitValue(s[2]) + DigitValue(s[3]) == ParseDigits(s[..4])
    ensures 10 * DigitValue(s[4]) + DigitValue(s[5]) == ParseDigits(s[4..6])
    ensures 10 * DigitValue(s[6]) + DigitValue(s[7]) == ParseDigits(s[6..8])
    ensures 10 * DigitValue(s[8]) + DigitValue(s[9]) == ParseDigits(s[8..])
  {
    ParseFour(s[..4]);
    ParseTwo(s[4..6]);
    ParseTwo(s[6..8]);
    ParseTwo(s[8..]);
  }

  /** What the parser accepts prints back, as a stamp, to exactly the text it read. */
  lemma ParseStampPrints(s: string)
    requires ParseStamp(s).Some?
    ensures |s| == 10 && Stamp(ParseStamp(s).value) == s
  {
    DigitFields(s);
    StampOfDigits(s[..4], s[4..6], s[6..8], s[8..], ParseStamp(s).value);
    assert s == s[..4] + (s[4..6] + (s[6..8] + s[8..]));
  }

  /** Four, two, two and two digits read as an hour print back as those digits. */
  lemma StampOfDigits(y: string, m: string, d: string, h: string, t: Timestamp)
    requires |y| == 4 && |m| == 2 && |d| == 2 && |h| == 2
    requires AllDigits(y) && AllDigits(m) && AllDigits(d) && AllDigits(h)
    requires t == Timestamp(ParseDigits(y), ParseDigits(m), ParseDigits(d), ParseDigits(h))
    requires 1000 <= t.year
    ensures Stamp(t) == y + (m + (d + h))
  {
    PadParse(y);
    PadParse(m);
    PadParse(d);
    PadParse(h);
    Pow10Values();
    NatToStringIsPad(t.year, 4);
  }

  /** extract_data_utc */
  function ExtractDataUtc(name: string): (r: Option<Timestamp>)
    ensures r.Some? ==> r.value.Valid() && InPandasRange(r.value)
  {
    ParseStamp(LastField(Stem(name)))
  }

  /** A name ending in a suffix (a dot and at least one more character, no
      other dot) after a non-empty base has that base as its stem. */
  lemma StemOf(base: string, ext: string)
    requires |base| > 0 && |ext| >= 2 && ext[0] == '.'
    requires forall i :: 0 < i < |ext| ==> ext[i] != '.'
    ensures Stem(base + ext) == base
  {
    LastIndexAt(base + ext, '.', |base|);
  }

  /** After an underscore, a field without underscores is the last field. */
  lemma LastFieldOf(a: string, b: string)
    requires |a| > 0 && a[|a| - 1] == '_'
    requires forall i :: 0 <= i < |b| ==> b[i] != '_'
    ensures LastField(a + b) == b
  {
    LastIndexAt(a + b, '_', |a| - 1);
  }

  /** The parser reads every stamp of the pandas range back as its hour. */
  lemma ParseStampOfStamp(t: Timestamp)
    requires t.Valid() && InPandasRange(t)
    ensures ParseStamp(Stamp(t)) == Some(t)
  {
    var s := Stamp(t);
    StampDigits(t);
    StampSlices(t);
    Pow10Values();
    ParsePad(t.year, 4);
    ParsePad(t.month, 2);
    ParsePad(t.day, 2);
    ParsePad(t.hour, 2);
    ParseStampFields(s, t);
  }

  /** Ten digits whose groups denote a valid hour in the pandas range parse to it. */
  lemma ParseStampFields(s: string, t: Timestamp)
    requires |s| == 10 && AllDigits(s) && t.Valid() && InPandasRange(t)
    requires ParseDigits(s[..4]) == t.year && ParseDigits(s[4..6]) == t.month
    requires ParseDigits(s[6..8]) == t.day && ParseDigits(s[8..]) == t.hour
    ensures ParseStamp(s) == Some(t)
  {
    DigitFields(s);
  }

  /** Parsing undoes naming: the hour read back from the name the downloader
      gives an hour is that hour. */
  lemma ExtractRoundTrip(t: Timestamp)
    requires t.Valid() && InPandasRange(t)
    ensures ExtractDataUtc(FileName(t)) == Some(t)
  {
    var s := Stamp(t);
    StampDigits(t);
    assert FileName(t) == (Prefix + s) + Extension;
    StemOf(Prefix + s, Extension);
    LastFieldOf(Prefix, s);
    ParseStampOfStamp(t);
  }

  /** Naming undoes parsing: a 28-character archive name from which an hour can
      be read is the name of that hour. */
  lemma ExtractInverse(n: string, t: Timestamp)
    requires MatchesPattern(n) && |n| == 28
    requires ExtractDataUtc(n) == Some(t)
    ensures FileName(t) == n
  {
    NameField(n);
    ParseStampPrints(n[12..22]);
    NamePieces(n);
  }

  lemma NamePieces(n: string)
    requires MatchesPattern(n) && |n| == 28
    ensures n == Prefix + (n[12..22] + Extension)
  {
    assert n == n[..12] + (n[12..22] + n[22..]);
  }

  /** In a 28-character archive name the stamp read is the ten characters
      between prefix and extension. */
  lemma NameField(n: string)
    requires MatchesPattern(n) && |n| == 28
    requires ExtractDataUtc(n).Some?
    ensures ParseStamp(n[12..22]) == ExtractDataUtc(n)
  {
    var base := n[..22];
    assert n[22..] == Extension && n == base + Extension;
    StemOf(base, Extension);
    var f := LastField(base);
    LastFieldSpec(base);
    assert |f| == 10;
    assert f == n[12..22];
  }

  // ---------------------------------------------------------------------------
  // Listing the hourly files

  /** The glob pattern MERGE_CPTEC_*.grib2 on a file name. */
  predicate MatchesPattern(n: string) {
    |n| >= |Prefix| + |Extension| && n[..|Prefix|] == Prefix && n[|n| - |Extension|..] == Extension
  }

  lemma FileNameMatches(t: Timestamp)
    ensures MatchesPattern(FileName(t))
  {
    var n := FileName(t);
    assert n[..|Prefix|] == Prefix;
    assert n[|n| - |Extension|..] == Extension;
  }

  /** The names of a directory listing that match the pattern, in listing order. */
  function Matching(listing: seq<string>): (r: seq<string>)
    ensures forall n :: n in r <==> n in listing && MatchesPattern(n)
  {
    Filter(listing, MatchesPattern)
  }

  /** sorted(pasta.glob("MERGE_CPTEC_*.grib2")): paths in one directory compare
      as their names do. */
  function ListMergeFiles(listing: seq<string>): seq<string> {
    Sort(Matching(listing), StrLess)
  }

  lemma {:induction false} MatchingCount(listing: seq<string>, n: string)
    ensures multiset(Matching(listing))[n] == if MatchesPattern(n) then multiset(listing)[n] else 0
  {
    if listing != [] {
      var p := listing[..|listing| - 1];
      MatchingCount(p, n);
      assert listing == p + [listing[|listing| - 1]];
    }
  }

  lemma StrLessOrder()
    ensures StrictTotalOrder(StrLess)
  {
    forall a ensures !StrLess(a, a) {
      StrLessIrreflexive(a);
    }
    forall a, b, c | StrLess(a, b) && StrLess(b, c) ensures StrLess(a, c) {
      StrLessTransitive(a, b, c);
    }
    forall a, b | a != b ensures StrLess(a, b) || StrLess(b, a) {
      StrLessTotal(a, b);
    }
  }

  /** The list is in ascending string order and holds each matching name of the
      listing as often as the listing does, and nothing else. */
  lemma ListMergeFilesSpec(listing: seq<string>)
    ensures Sorted(ListMergeFiles(listing), StrLess)
    ensures forall n :: multiset(ListMergeFiles(listing))[n] == if MatchesPattern(n) then multiset(listing)[n] else 0
  {
    StrLessOrder();
    SortSorted(Matching(listing), StrLess);
    forall n ensures multiset(ListMergeFiles(listing))[n] == if MatchesPattern(n) then multiset(listing)[n] else 0 {
      MatchingCount(listing, n);
    }
  }

  /** The order in which the directory happens to list its files does not matter. */
  lemma ListingOrderIrrelevant(l1: seq<string>, l2: seq<string>)
    requires multiset(l1) == multiset(l2)
    ensures ListMergeFiles(l1) == ListMergeFiles(l2)
  {
    StrLessOrder();
    MatchingPermutation(l1, l2);
    SortSorted(Matching(l1), StrLess);
    SortSorted(Matching(l2), StrLess);
    SortedUnique(ListMergeFiles(l1), ListMergeFiles(l2), StrLess);
  }

  lemma MatchingPermutation(l1: seq<string>, l2: seq<string>)
    requires multiset(l1) == multiset(l2)
    ensures multiset(Matching(l1)) == multiset(Matching(l2))
  {
    forall n ensures multiset(Matching(l1))[n] == multiset(Matching(l2))[n] {
      MatchingCount(l1, n);
      MatchingCount(l2, n);
    }
  }

  /** Fixed-width names make name order chronological: of two archive names in
      the list, the earlier one holds the earlier (or the same) hour. */
  lemma ListChronological(listing: seq<string>)
    ensures var r := ListMergeFiles(listing);
      forall i, j ::
        (0 <= i < j < |r| && |r[i]| == 28 && |r[j]| == 28
         && ExtractDataUtc(r[i]).Some? && ExtractDataUtc(r[j]).Some?) ==>
        HourNumber(ExtractDataUtc(r[i]).value) <= HourNumber(ExtractDataUtc(r[j]).value)
  {
    var r := ListMergeFiles(listing);
    ListMergeFilesSpec(listing);
    forall i, j | 0 <= i < j < |r| && |r[i]| == 28 && |r[j]| == 28
        && ExtractDataUtc(r[i]).Some? && ExtractDataUtc(r[j]).Some?
      ensures HourNumber(ExtractDataUtc(r[i]).value) <= HourNumber(ExtractDataUtc(r[j]).value)
    {
      var a, b := ExtractDataUtc(r[i]).value, ExtractDataUtc(r[j]).value;
      assert r[i] in multiset(r) && r[j] in multiset(r);
      ExtractInverse(r[i], a);
      ExtractInverse(r[j], b);
      FileNameOrder(b, a);
    }
  }

  // ---------------------------------------------------------------------------
  // Grouping by month

  datatype MonthKey = MonthKey(year: int, month: nat)

  /** (data, arq): a file and the UTC hour read from its name. */
  datatype Entry = Entry(data: Timestamp, arq: string)

  /** chave = (data.year, data.month) */
  function EntryMonth(e: Entry): MonthKey {
    MonthKey(e.data.year, e.data.month)
  }

  /** How Python compares the (year, month) tuples. */
  predicate MonthLess(a: MonthKey, b: MonthKey) {
    a.year < b.year || (a.year == b.year && a.month < b.month)
  }

  lemma MonthLessOrder()
    ensures StrictTotalOrder(MonthLess)
  {
  }

  /** (data, arq) for one listed file, or None when its name cannot be read. */
  function ParseEntry(arq: string): (r: Option<Entry>)
    ensures r.Some? <==> ExtractDataUtc(arq).Some?
    ensures r.Some? ==> r.value == Entry(ExtractDataUtc(arq).value, arq)
  {
    match ExtractDataUtc(arq)
    case None => None
    case Some(t) => Some(Entry(t, arq))
  }

  /** Every file paired with its hour, in list order, or None when some name
      cannot be read (the script stops there with an exception). */
  function ParseAll(names: seq<string>): Option<seq<Entry>> {
    Collect(names, ParseEntry)
  }

  /** arquivos_por_mes: the dictionary and, since Python dictionaries keep
      insertion order, its keys in the order they were first inserted. */
  datatype MonthIndex = MonthIndex(order: seq<MonthKey>, buckets: map<MonthKey, seq<Entry>>)

  ghost predicate IndexOf(index: MonthIndex, es: seq<Entry>) {
    && index.buckets == GroupBy(es, EntryMonth)
    && Distinct(index.order)
    && (forall k :: k in index.order <==> k in index.buckets)
  }

  /** The setdefault(chave, []).append((data, arq)) loop. */
  method GroupByMonth(arquivos: seq<string>) returns (r: Option<MonthIndex>)
    ensures r.None? <==> ParseAll(arquivos).None?
    ensures r.Some? ==> IndexOf(r.value, ParseAll(arquivos).value)
  {
    var porMes: map<MonthKey, seq<Entry>> := map[];
    var chaves: seq<MonthKey> := [];
    ghost var es: seq<Entry> := [];
    var i := 0;
    while i < |arquivos|
      invariant 0 <= i <= |arquivos|
      invariant Collect(arquivos[..i], ParseEntry) == Some(es)
      invariant IndexOf(MonthIndex(chaves, porMes), es)
    {
      var arq := arquivos[i];
      var data := ExtractDataUtc(arq);
      if data.None? {
        assert arquivos[i] in arquivos && ParseEntry(arquivos[i]).None?;
        CollectNone(arquivos, ParseEntry);
        return None;
      }
      var entrada := Entry(data.value, arq);
      var chave := MonthKey(data.value.year, data.value.month);
      var lista := if chave in porMes then porMes[chave] else [];
      IndexStep(chaves, porMes, es, entrada);
      assert ParseEntry(arquivos[i]) == Some(entrada);
      CollectStep(arquivos, i, ParseEntry, es, entrada);
      if chave !in porMes {
        chaves := chaves + [chave];
      }
      porMes := porMes[chave := lista + [entrada]];
      es := es + [entrada];
      i := i + 1;
    }
    assert arquivos[..i] == arquivos;
    r := Some(MonthIndex(chaves, porMes));
  }

  /** Appending one entry to its month's list, creating the list (and the key)
      on first sight, keeps the dictionary equal to the grouping of the entries. */
  lemma IndexStep(chaves: seq<MonthKey>, porMes: map<MonthKey, seq<Entry>>, es: seq<Entry>, e: Entry)
    requires IndexOf(MonthIndex(chaves, porMes), es)
    ensures var k := EntryMonth(e);
      IndexOf(MonthIndex(if k in porMes then chaves else chaves + [k],
                         porMes[k := (if k in porMes then porMes[k] else []) + [e]]), es + [e])
  {
    assert (es + [e])[..|es|] == es;
  }

  /** sorted(arquivos_por_mes.items()): the keys in ascending (year, month)
      order, the same whatever order they were inserted in. */
  function SortedMonths(index: MonthIndex): seq<MonthKey> {
    Sort(index.order, MonthLess)
  }

  lemma SortedMonthsSpec(index: MonthIndex)
    requires Distinct(index.order)
    ensures forall i, j :: 0 <= i < j < |SortedMonths(index)| ==> MonthLess(SortedMonths(index)[i], SortedMonths(index)[j])
    ensures forall k :: k in SortedMonths(index) <==> k in index.order
  {
    MonthLessOrder();
    SortStrict(index.order, MonthLess);
    SortSorted(index.order, MonthLess);
    forall k ensures k in SortedMonths(index) <==> k in index.order {
      assert k in multiset(SortedMonths(index)) <==> k in multiset(index.order);
    }
  }

  /** Any other sort of the keys (Python's sorted() among them) gives the same
      order. */
  lemma SortedMonthsUnique(index: MonthIndex, other: seq<MonthKey>)
    requires multiset(other) == multiset(index.order)
    requires Sorted(other, MonthLess)
    ensures SortedMonths(index) == other
  {
    MonthLessOrder();
    SortSorted(index.order, MonthLess);
    SortedUnique(SortedMonths(index), other, MonthLess);
  }

  /** The buckets, in ascending month order, hold every file exactly once: put
      end to end they are a rearrangement of the file list, so their sizes add
      up to the number of files. */
  lemma EveryFileOnce(index: MonthIndex, es: seq<Entry>)
    requires IndexOf(index, es)
    ensures multiset(Concat(index.buckets, SortedMonths(index))) == multiset(es)
    ensures |Concat(index.buckets, SortedMonths(index))| == |es|
  {
    MonthLessOrder();
    SortDistinct(index.order, MonthLess);
    var ks := SortedMonths(index);
    forall k ensures k in ks <==> k in index.buckets {
      assert k in multiset(ks) <==> k in multiset(index.order);
    }
    ConcatBuckets(es, EntryMonth, ks);
  }

  // ---------------------------------------------------------------------------
  // One daily file per month

  /** One output file: prec_diaria_brasilia_{ano}_{mes:02d}.nc and the hours,
      in Brasilia time, whose fields it sums day by day. */
  datatype MonthlyFile = MonthlyFile(ano: int, mes: nat, saida: string, horas: seq<Timestamp>)

  /** f"{mes:02d}": at least two digits, zero-filled. */
  function Format02(n: nat): (s: string)
    ensures |s| >= 2 && AllDigits(s)
  {
    if n < 10 then Pad(n, 2) else NatToString(n)
  }

  lemma Format02Month(n: nat)
    requires n < 100
    ensures Format02(n) == Pad(n, 2)
  {
    if n >= 10 {
      Pow10Values();
      NatToStringIsPad(n, 2);
    }
  }

  function OutputName(ano: int, mes: nat): string {
    "prec_diaria_brasilia_" + (IntToString(ano) + ("_" + (Format02(mes) + ".nc")))
  }

  /** Different months never share an output name. */
  lemma OutputNameInjective(a: int, m: nat, b: int, n: nat)
    requires 1 <= m <= 12 && 1 <= n <= 12
    requires OutputName(a, m) == OutputName(b, n)
    ensures a == b && m == n
  {
    Format02Month(m);
    Format02Month(n);
    var ra, rb := "_" + (Format02(m) + ".nc"), "_" + (Format02(n) + ".nc");
    var ya, yb := IntToString(a) + ra, IntToString(b) + rb;
    SplitAt("prec_diaria_brasilia_", ya, "prec_diaria_brasilia_", yb);
    SplitAt(IntToString(a), ra, IntToString(b), rb);
    IntToStringInjective(a, b);
    SplitAt("_", Format02(m) + ".nc", "_", Format02(n) + ".nc");
    SplitAt(Format02(m), ".nc", Format02(n), ".nc");
    Pow10Values();
    PadInjective(m, n, 2);
  }

  /** Whether a file opens; the unreadable ones are reported and dropped. */
  function Readable(unreadable: set<string>): Entry -> bool {
    (e: Entry) => e.arq !in unreadable
  }

  /** The files of a month that open, in bucket order. */
  function Opened(es: seq<Entry>, unreadable: set<string>): seq<Entry> {
    Filter(es, Readable(unreadable))
  }

  /** ds_horario.time - 3 hours, file by file. */
  function BrasiliaHours(es: seq<Entry>): (r: seq<Timestamp>)
    requires forall e :: e in es ==> e.data.Valid()
    ensures |r| == |es|
    ensures forall i :: 0 <= i < |es| ==> r[i].Valid() && HourNumber(r[i]) == HourNumber(es[i].data) - 3
  {
    seq(|es|, i requires 0 <= i < |es| => ToBrasilia(es[i].data))
  }

  predicate ValidBuckets(buckets: map<MonthKey, seq<Entry>>) {
    forall k, e :: k in buckets && e in buckets[k] ==> e.data.Valid()
  }

  /** Whether a month has at least one file that opens. */
  function HasOpened(buckets: map<MonthKey, seq<Entry>>, unreadable: set<string>): MonthKey -> bool {
    (k: MonthKey) => k in buckets && Opened(buckets[k], unreadable) != []
  }

  /** The output file of month k made of the files that opened. */
  function MonthFile(k: MonthKey, abertos: seq<Entry>): MonthlyFile
    requires forall e :: e in abertos ==> e.data.Valid()
  {
    MonthlyFile(k.year, k.month, OutputName(k.year, k.month), BrasiliaHours(abertos))
  }

  /** The output of the months ks, in that order: none for a month none of
      whose files opens, otherwise its MonthFile. */
  function Monthly(ks: seq<MonthKey>, buckets: map<MonthKey, seq<Entry>>, unreadable: set<string>): seq<MonthlyFile>
    requires ValidBuckets(buckets)
  {
    var kept := Filter(ks, HasOpened(buckets, unreadable));
    seq(|kept|, i requires 0 <= i < |kept| =>
      assert kept[i] in buckets;
      MonthFile(kept[i], Opened(buckets[kept[i]], unreadable)))
  }

  /** The loop over sorted(arquivos_por_mes.items()). */
  method ProcessMonths(index: MonthIndex, unreadable: set<string>) returns (outputs: seq<MonthlyFile>)
    requires forall k :: k in index.order ==> k in index.buckets
    requires ValidBuckets(index.buckets)
    ensures outputs == Monthly(SortedMonths(index), index.buckets, unreadable)
  {
    var meses := SortedMonths(index);
    outputs := [];
    var m := 0;
    while m < |meses|
      invariant 0 <= m <= |meses|
      invariant outputs == Monthly(meses[..m], index.buckets, unreadable)
    {
      var chave := meses[m];
      SortedMonthIn(index, m);
      var datasets := OpenMonth(index.buckets[chave], unreadable);
      MonthlyStep(meses, m, index.buckets, unreadable);
      if datasets != [] {
        outputs := outputs + [MonthFile(chave, datasets)];
      }
      m := m + 1;
    }
    assert meses[..m] == meses;
  }

  /** Every month the loop takes has a bucket. */
  lemma SortedMonthIn(index: MonthIndex, m: nat)
    requires forall k :: k in index.order ==> k in index.buckets
    requires m < |SortedMonths(index)|
    ensures SortedMonths(index)[m] in index.buckets
  {
    assert SortedMonths(index)[m] in multiset(SortedMonths(index));
  }

  /** Taking one more month appends its file, if it has one. */
  lemma MonthlyStep(ks: seq<MonthKey>, i: nat, buckets: map<MonthKey, seq<Entry>>, unreadable: set<string>)
    requires ValidBuckets(buckets)
    requires i < |ks| && ks[i] in buckets
    ensures Monthly(ks[..i + 1], buckets, unreadable) == Monthly(ks[..i], buckets, unreadable)
      + (if Opened(buckets[ks[i]], unreadable) != [] then [MonthFile(ks[i], Opened(buckets[ks[i]], unreadable))] else [])
  {
    FilterStep(ks, i, HasOpened(buckets, unreadable));
  }

  /** The inner loop over a month's files: open each, report and skip those
      that cannot be opened. */
  method OpenMonth(entradas: seq<Entry>, unreadable: set<string>) returns (datasets: seq<Entry>)
    ensures datasets == Opened(entradas, unreadable)
  {
    datasets := [];
    var j := 0;
    while j < |entradas|
      invariant 0 <= j <= |entradas|
      invariant datasets == Opened(entradas[..j], unreadable)
    {
      FilterStep(entradas, j, Readable(unreadable));
      if entradas[j].arq !in unreadable {
        datasets := datasets + [entradas[j]];
      }
      j := j + 1;
    }
    assert entradas[..j] == entradas;
  }

  /** Exactly the months with at least one file that opens get an output file. */
  lemma MonthlyCovers(ks: seq<MonthKey>, buckets: map<MonthKey, seq<Entry>>, unreadable: set<string>, k: MonthKey)
    requires ValidBuckets(buckets)
    ensures (exists i :: 0 <= i < |Monthly(ks, buckets, unreadable)| && Monthly(ks, buckets, unreadable)[i].ano == k.year
               && Monthly(ks, buckets, unreadable)[i].mes == k.month)
      <==> k in ks && k in buckets && Opened(buckets[k], unreadable) != []
  {
    var kept := Filter(ks, HasOpened(buckets, unreadable));
    var r := Monthly(ks, buckets, unreadable);
    if k in ks && k in buckets && Opened(buckets[k], unreadable) != [] {
      var j :| 0 <= j < |ks| && ks[j] == k;
      var i :| 0 <= i < |kept| && kept[i] == k;
      assert r[i].ano == k.year && r[i].mes == k.month;
    }
    if i :| 0 <= i < |r| && r[i].ano == k.year && r[i].mes == k.month {
      assert kept[i] == k;
    }
  }

  /** Every output file is named after its own month and holds one shifted hour
      per file of that month that opened, at least one. */
  lemma MonthlyFiles(ks: seq<MonthKey>, buckets: map<MonthKey, seq<Entry>>, unreadable: set<string>)
    requires ValidBuckets(buckets)
    ensures forall f :: f in Monthly(ks, buckets, unreadable) ==>
      && MonthKey(f.ano, f.mes) in buckets
      && f.saida == OutputName(f.ano, f.mes)
      && Opened(buckets[MonthKey(f.ano, f.mes)], unreadable) != []
      && f.horas == BrasiliaHours(Opened(buckets[MonthKey(f.ano, f.mes)], unreadable))
      && f.horas != []
  {
    var r := Monthly(ks, buckets, unreadable);
    forall f | f in r
      ensures && MonthKey(f.ano, f.mes) in buckets
              && f.saida == OutputName(f.ano, f.mes)
              && Opened(buckets[MonthKey(f.ano, f.mes)], unreadable) != []
              && f.horas == BrasiliaHours(Opened(buckets[MonthKey(f.ano, f.mes)], unreadable))
              && f.horas != []
    {
      var i :| 0 <= i < |r| && r[i] == f;
      MonthlyAt(ks, buckets, unreadable, i);
    }
  }

  /** The i-th output file is the MonthFile of the i-th kept month. */
  lemma MonthlyAt(ks: seq<MonthKey>, buckets: map<MonthKey, seq<Entry>>, unreadable: set<string>, i: nat)
    requires ValidBuckets(buckets) && i < |Monthly(ks, buckets, unreadable)|
    ensures && Filter(ks, HasOpened(buckets, unreadable))[i] in buckets
            && Opened(buckets[Filter(ks, HasOpened(buckets, unreadable))[i]], unreadable) != []
            && Monthly(ks, buckets, unreadable)[i]
               == MonthFile(Filter(ks, HasOpened(buckets, unreadable))[i],
                            Opened(buckets[Filter(ks, HasOpened(buckets, unreadable))[i]], unreadable))
  {
  }

  /** Months taken in ascending order give output files in ascending month
      order, so no two of them share a name. */
  lemma MonthlyAscending(ks: seq<MonthKey>, buckets: map<MonthKey, seq<Entry>>, unreadable: set<string>)
    requires ValidBuckets(buckets)
    requires forall k :: k in ks ==> 1 <= k.month <= 12
    requires forall i, j :: 0 <= i < j < |ks| ==> MonthLess(ks[i], ks[j])
    ensures forall i, j :: 0 <= i < j < |Monthly(ks, buckets, unreadable)| ==>
      && MonthLess(MonthKey(Monthly(ks, buckets, unreadable)[i].ano, Monthly(ks, buckets, unreadable)[i].mes),
                   MonthKey(Monthly(ks, buckets, unreadable)[j].ano, Monthly(ks, buckets, unreadable)[j].mes))
      && Monthly(ks, buckets, unreadable)[i].saida != Monthly(ks, buckets, unreadable)[j].saida
  {
    var kept := Filter(ks, HasOpened(buckets, unreadable));
    var r := Monthly(ks, buckets, unreadable);
    FilterAscending(ks, HasOpened(buckets, unreadable), MonthLess);
    forall i, j | 0 <= i < j < |r|
      ensures MonthLess(MonthKey(r[i].ano, r[i].mes), MonthKey(r[j].ano, r[j].mes)) && r[i].saida != r[j].saida
    {
      var a, b := kept[i], kept[j];
      assert MonthKey(r[i].ano, r[i].mes) == a && MonthKey(r[j].ano, r[j].mes) == b;
      assert MonthLess(a, b);
      assert a in ks && b in ks;
      if r[i].saida == r[j].saida {
        OutputNameInjective(a.year, a.month, b.year, b.month);
      }
    }
  }

  /** The month an hour's Brasilia time falls in: hours 0-2 UTC of the first
      day of a month belong to the last day of the previous month (21-23 h);
      every other hour stays in its own month. */
  lemma BrasiliaMonth(t: Timestamp)
    requires t.Valid()
    ensures var b := ToBrasilia(t);
      && (t.day == 1 && t.hour < 3 ==>
            && (if t.month == 1 then b.year == t.year - 1 && b.month == 12
                else b.year == t.year && b.month == t.month - 1)
            && b.day == DaysInMonth(b.year, b.month) && b.hour == t.hour + 21)
      && (t.day > 1 || t.hour >= 3 ==> b.year == t.year && b.month == t.month)
  {
  }

  /** Every hour in the output file of a month lies in that month, or at 21-23 h
      on the last day of the previous month. */
  lemma MonthlyHours(es: seq<Entry>, index: MonthIndex, unreadable: set<string>, f: MonthlyFile, h: Timestamp)
    requires IndexOf(index, es) && ValidBuckets(index.buckets)
    requires f in Monthly(SortedMonths(index), index.buckets, unreadable)
    requires h in f.horas
    ensures (h.year == f.ano && h.month == f.mes)
      || (h.hour >= 21 && h.day == DaysInMonth(h.year, h.month)
          && (if f.mes == 1 then h.year == f.ano - 1 && h.month == 12 else h.year == f.ano && h.month == f.mes - 1))
  {
    var k := MonthKey(f.ano, f.mes);
    MonthlyFiles(SortedMonths(index), index.buckets, unreadable);
    var abertos := Opened(index.buckets[k], unreadable);
    var i :| 0 <= i < |f.horas| && f.horas[i] == h;
    OpenedMonth(es, index, unreadable, k, i);
    ShiftedMonth(abertos[i].data, h);
  }

  /** The files of a month's list that open belong to that month. */
  lemma OpenedMonth(es: seq<Entry>, index: MonthIndex, unreadable: set<string>, k: MonthKey, i: nat)
    requires IndexOf(index, es) && k in index.buckets
    requires i < |Opened(index.buckets[k], unreadable)|
    ensures EntryMonth(Opened(index.buckets[k], unreadable)[i]) == k
  {
    var e := Opened(index.buckets[k], unreadable)[i];
    assert e in index.buckets[k];
    GroupByBuckets(es, EntryMonth);
    var j :| 0 <= j < |index.buckets[k]| && index.buckets[k][j] == e;
  }

  /** An hour three hours before one of month (y, m) lies in that month, or at
      21-23 h on the last day of the month before. */
  lemma ShiftedMonth(d: Timestamp, h: Timestamp)
    requires d.Valid() && h.Valid() && HourNumber(h) == HourNumber(d) - 3
    ensures (h.year == d.year && h.month == d.month)
      || (h.hour >= 21 && h.day == DaysInMonth(h.year, h.month)
          && (if d.month == 1 then h.year == d.year - 1 && h.month == 12 else h.year == d.year && h.month == d.month - 1))
  {
    BrasiliaMonth(d);
    HourNumberOrder(h, ToBrasilia(d));
  }

  // ---------------------------------------------------------------------------
  // The whole script

  /** n is a listed archive file that opens, and t is the hour its name carries. */
  predicate ListedReadable(listing: seq<string>, unreadable: set<string>, n: string, t: Timestamp) {
    n in listing && MatchesPattern(n) && n !in unreadable && ExtractDataUtc(n) == Some(t)
  }

  /** h, an hour of output f, is the Brasilia hour of t, an hour of f's month. */
  predicate SourceOf(f: MonthlyFile, h: Timestamp, t: Timestamp) {
    t.Valid() && t.year == f.ano && t.month == f.mes && h == ToBrasilia(t)
  }

  /** h, an hour of output f, comes from a listed file that opens. */
  ghost predicate FromListing(listing: seq<string>, unreadable: set<string>, f: MonthlyFile, h: Timestamp) {
    exists n, t :: ListedReadable(listing, unreadable, n, t) && SourceOf(f, h, t)
  }

  /** Output f is the file of t's month and holds t's Brasilia hour. */
  predicate HoldsHour(f: MonthlyFile, t: Timestamp) {
    t.Valid() && f.ano == t.year && f.mes == t.month && ToBrasilia(t) in f.horas
  }

  /** List, group, and write one file per month; None when some listed name
      cannot be read as an hour.  Otherwise the outputs are exactly Monthly over
      the sorted months of the dictionary the grouping loop built (the ghost
      index): an output per month with a listed file that opens, and nothing
      else, each holding the shifted hours of exactly those files. */
  method MergeArchive(listing: seq<string>, unreadable: set<string>)
    returns (r: Option<seq<MonthlyFile>>, ghost index: MonthIndex)
    ensures r.None? <==> exists n :: n in listing && MatchesPattern(n) && ExtractDataUtc(n).None?
    ensures r.Some? ==>
      && ParseAll(ListMergeFiles(listing)).Some?
      && IndexOf(index, ParseAll(ListMergeFiles(listing)).value)
      && ValidBuckets(index.buckets)
      && r.value == Monthly(SortedMonths(index), index.buckets, unreadable)
    ensures r.Some? ==> forall i, j :: 0 <= i < j < |r.value| ==>
      MonthLess(MonthKey(r.value[i].ano, r.value[i].mes), MonthKey(r.value[j].ano, r.value[j].mes))
      && r.value[i].saida != r.value[j].saida
    ensures r.Some? ==> forall i :: 0 <= i < |r.value| ==>
      r.value[i].saida == OutputName(r.value[i].ano, r.value[i].mes) && r.value[i].horas != []
    ensures r.Some? ==> forall i, h :: 0 <= i < |r.value| && h in r.value[i].horas ==>
      FromListing(listing, unreadable, r.value[i], h)
    ensures r.Some? ==> forall n, t :: ListedReadable(listing, unreadable, n, t) ==>
      exists i :: 0 <= i < |r.value| && HoldsHour(r.value[i], t)
  {
    var arquivos := ListMergeFiles(listing);
    var grouped := GroupByMonth(arquivos);
    ListingParses(listing);
    if grouped.None? {
      return None, MonthIndex([], map[]);
    }
    var porMes := grouped.value;
    index := porMes;
    var es := ParseAll(arquivos).value;
    ParsedValid(arquivos);
    IndexValid(es, porMes);
    var outputs := ProcessMonths(porMes, unreadable);
    SortedMonthsSpec(index);
    MonthlyAscending(SortedMonths(index), index.buckets, unreadable);
    MonthlyFiles(SortedMonths(index), index.buckets, unreadable);
    OutputSources(listing, porMes, unreadable);
    ReadableFilesKept(listing, porMes, unreadable);
    r := Some(outputs);
  }

  /** Every hour of every output file is the shifted hour of a listed file of
      that month that opened. */
  lemma OutputSources(listing: seq<string>, index: MonthIndex, unreadable: set<string>)
    requires ParseAll(ListMergeFiles(listing)).Some? && IndexOf(index, ParseAll(ListMergeFiles(listing)).value)
    requires ValidBuckets(index.buckets)
    ensures forall i, h ::
      0 <= i < |Monthly(SortedMonths(index), index.buckets, unreadable)|
      && h in Monthly(SortedMonths(index), index.buckets, unreadable)[i].horas ==>
        FromListing(listing, unreadable, Monthly(SortedMonths(index), index.buckets, unreadable)[i], h)
  {
    var outputs := Monthly(SortedMonths(index), index.buckets, unreadable);
    forall i, j | 0 <= i < |outputs| && 0 <= j < |outputs[i].horas|
      ensures FromListing(listing, unreadable, outputs[i], outputs[i].horas[j])
    {
      OutputHourListed(listing, index, unreadable, i, j);
    }
    HoursFromListing(listing, unreadable, outputs);
  }

  /** What holds of every hour by position holds of every hour held. */
  lemma HoursFromListing(listing: seq<string>, unreadable: set<string>, outputs: seq<MonthlyFile>)
    requires forall i, j :: 0 <= i < |outputs| && 0 <= j < |outputs[i].horas| ==>
      FromListing(listing, unreadable, outputs[i], outputs[i].horas[j])
    ensures forall i, h :: 0 <= i < |outputs| && h in outputs[i].horas ==>
      FromListing(listing, unreadable, outputs[i], h)
  {
    forall i, h | 0 <= i < |outputs| && h in outputs[i].horas
      ensures FromListing(listing, unreadable, outputs[i], h)
    {
      var j :| 0 <= j < |outputs[i].horas| && outputs[i].horas[j] == h;
    }
  }

  /** The j-th hour of the i-th output file comes from a listed file that opens. */
  lemma OutputHourListed(listing: seq<string>, index: MonthIndex, unreadable: set<string>, i: nat, j: nat)
    requires ParseAll(ListMergeFiles(listing)).Some? && IndexOf(index, ParseAll(ListMergeFiles(listing)).value)
    requires ValidBuckets(index.buckets)
    requires i < |Monthly(SortedMonths(index), index.buckets, unreadable)|
    requires j < |Monthly(SortedMonths(index), index.buckets, unreadable)[i].horas|
    ensures FromListing(listing, unreadable, Monthly(SortedMonths(index), index.buckets, unreadable)[i],
                        Monthly(SortedMonths(index), index.buckets, unreadable)[i].horas[j])
  {
    var outputs := Monthly(SortedMonths(index), index.buckets, unreadable);
    ListMergeFilesMembers(listing);
    OutputHourSource(ListMergeFiles(listing), index, unreadable, i, j);
    var e := Opened(index.buckets[MonthKey(outputs[i].ano, outputs[i].mes)], unreadable)[j];
    assert e.arq in listing && MatchesPattern(e.arq);
    assert ListedReadable(listing, unreadable, e.arq, e.data) && SourceOf(outputs[i], outputs[i].horas[j], e.data);
  }

  /** Every listed file that opens has its shifted hour in its month's output. */
  lemma ReadableFilesKept(listing: seq<string>, index: MonthIndex, unreadable: set<string>)
    requires ParseAll(ListMergeFiles(listing)).Some? && IndexOf(index, ParseAll(ListMergeFiles(listing)).value)
    requires ValidBuckets(index.buckets)
    ensures forall n, t :: ListedReadable(listing, unreadable, n, t) ==>
      exists i ::
        && 0 <= i < |Monthly(SortedMonths(index), index.buckets, unreadable)|
        && HoldsHour(Monthly(SortedMonths(index), index.buckets, unreadable)[i], t)
  {
    var arquivos := ListMergeFiles(listing);
    ListMergeFilesMembers(listing);
    forall n, t | ListedReadable(listing, unreadable, n, t)
      ensures exists i ::
        && 0 <= i < |Monthly(SortedMonths(index), index.buckets, unreadable)|
        && HoldsHour(Monthly(SortedMonths(index), index.buckets, unreadable)[i], t)
    {
      assert n in arquivos;
      ReadableFileKept(arquivos, index, unreadable, n, t);
    }
  }

  /** The j-th hour of the i-th output file is the shifted hour of the j-th file
      of its month that opened, and that file is a listed one of that month. */
  lemma OutputHourSource(arquivos: seq<string>, index: MonthIndex, unreadable: set<string>, i: nat, j: nat)
    requires ParseAll(arquivos).Some? && IndexOf(index, ParseAll(arquivos).value)
    requires ValidBuckets(index.buckets)
    requires i < |Monthly(SortedMonths(index), index.buckets, unreadable)|
    requires j < |Monthly(SortedMonths(index), index.buckets, unreadable)[i].horas|
    ensures var f := Monthly(SortedMonths(index), index.buckets, unreadable)[i];
      var k := MonthKey(f.ano, f.mes);
      && k in index.buckets && j < |Opened(index.buckets[k], unreadable)|
      && var e := Opened(index.buckets[k], unreadable)[j];
      && e.arq in arquivos && e.arq !in unreadable && ExtractDataUtc(e.arq) == Some(e.data)
      && e.data.year == f.ano && e.data.month == f.mes && f.horas[j] == ToBrasilia(e.data)
  {
    var f := Monthly(SortedMonths(index), index.buckets, unreadable)[i];
    var k := MonthKey(f.ano, f.mes);
    MonthlyAt(SortedMonths(index), index.buckets, unreadable, i);
    assert Filter(SortedMonths(index), HasOpened(index.buckets, unreadable))[i] == k;
    var abertos := Opened(index.buckets[k], unreadable);
    var e := abertos[j];
    assert e in abertos;
    var es := ParseAll(arquivos).value;
    OpenedMonth(es, index, unreadable, k, j);
    assert e in index.buckets[k];
    GroupByBuckets(es, EntryMonth);
    var m :| 0 <= m < |index.buckets[k]| && index.buckets[k][m] == e;
    assert e in es;
    var idx :| 0 <= idx < |es| && es[idx] == e;
    CollectSpec(arquivos, ParseEntry);
    assert es[idx] == ParseEntry(arquivos[idx]).value;
    assert e.arq == arquivos[idx];
  }

  /** A file that opens always reaches the output: its month has a file, and
      its shifted hour is among that file's hours. */
  lemma ReadableFileKept(arquivos: seq<string>, index: MonthIndex, unreadable: set<string>, n: string, t: Timestamp)
    requires ParseAll(arquivos).Some? && IndexOf(index, ParseAll(arquivos).value)
    requires ValidBuckets(index.buckets)
    requires n in arquivos && n !in unreadable && ExtractDataUtc(n) == Some(t)
    ensures exists i ::
      && 0 <= i < |Monthly(SortedMonths(index), index.buckets, unreadable)|
      && HoldsHour(Monthly(SortedMonths(index), index.buckets, unreadable)[i], t)
  {
    var es := ParseAll(arquivos).value;
    CollectSpec(arquivos, ParseEntry);
    var idx :| 0 <= idx < |arquivos| && arquivos[idx] == n;
    assert es[idx] == Entry(t, n);
    var k := MonthKey(t.year, t.month);
    GroupByBuckets(es, EntryMonth);
    SelectHas(es, EntryMonth, idx);
    assert k in index.buckets && es[idx] in index.buckets[k];
    var j :| 0 <= j < |index.buckets[k]| && index.buckets[k][j] == es[idx];
    var abertos := Opened(index.buckets[k], unreadable);
    assert es[idx] in abertos;
    var p :| 0 <= p < |abertos| && abertos[p] == es[idx];
    SortedMonthsSpec(index);
    MonthlyCovers(SortedMonths(index), index.buckets, unreadable, k);
    var r := Monthly(SortedMonths(index), index.buckets, unreadable);
    var i :| 0 <= i < |r| && r[i].ano == k.year && r[i].mes == k.month;
    MonthlyAt(SortedMonths(index), index.buckets, unreadable, i);
    assert Filter(SortedMonths(index), HasOpened(index.buckets, unreadable))[i] == k;
    assert r[i].horas == BrasiliaHours(abertos);
    assert r[i].horas[p] == ToBrasilia(t);
    assert HoldsHour(r[i], t);
  }

  /** A name is in the list exactly when the listing holds it and it matches. */
  lemma ListMergeFilesMembers(listing: seq<string>)
    ensures forall n :: n in ListMergeFiles(listing) <==> n in listing && MatchesPattern(n)
  {
    ListMergeFilesSpec(listing);
    forall n ensures n in ListMergeFiles(listing) <==> n in listing && MatchesPattern(n) {
      assert n in ListMergeFiles(listing) <==> n in multiset(ListMergeFiles(listing));
    }
  }

  /** The listed archive names all parse exactly when no matching name of the
      listing fails to. */
  lemma ListingParses(listing: seq<string>)
    ensures ParseAll(ListMergeFiles(listing)).None?
      <==> exists n :: n in listing && MatchesPattern(n) && ExtractDataUtc(n).None?
  {
    var arquivos := ListMergeFiles(listing);
    ListMergeFilesMembers(listing);
    CollectNone(arquivos, ParseEntry);
    if n :| n in listing && MatchesPattern(n) && ExtractDataUtc(n).None? {
      assert n in arquivos && ParseEntry(n).None?;
    }
  }

  /** Every hour read from a list of names is a valid one. */
  lemma ParsedValid(names: seq<string>)
    requires ParseAll(names).Some?
    ensures forall i :: 0 <= i < |ParseAll(names).value| ==> ParseAll(names).value[i].data.Valid()
  {
    CollectSpec(names, ParseEntry);
  }

  /** The keys of the dictionary are real months and its entries valid hours. */
  lemma IndexValid(es: seq<Entry>, index: MonthIndex)
    requires IndexOf(index, es)
    requires forall i :: 0 <= i < |es| ==> es[i].data.Valid()
    ensures ValidBuckets(index.buckets)
    ensures forall k :: k in index.buckets ==> 1 <= k.month <= 12
  {
    GroupByBuckets(es, EntryMonth);
    forall k, e | k in index.buckets && e in index.buckets[k] ensures e.data.Valid() {
      var j :| 0 <= j < |index.buckets[k]| && index.buckets[k][j] == e;
    }
    forall k | k in index.buckets ensures 1 <= k.month <= 12 {
      var e := index.buckets[k][0];
      var j :| 0 <= j < |Select(es, EntryMonth, k)| && Select(es, EntryMonth, k)[j] == e;
    }
  }
}
